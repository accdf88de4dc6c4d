/** The emulated batch of the RethinkDB driver: validate, apply in order over an overlay, and on a
    failed write undo the inverse log in reverse. */
module RethinkDriver {
  import opened Values
  import opened Transactions

  /** One entry of the inverse log: what the overlay showed before the write. */
  datatype RollbackStep = RollbackStep(key: Key, prev: Option<Doc>)

  type Overlay = map<Key, Option<Doc>>

  type Seen = map<Key, Option<Doc>>

  /** The overlay entry, else what phase one saw, else nothing. */
  function At(overlay: Overlay, seen: Seen, k: Key): Option<Doc> {
    if k in overlay then overlay[k] else if k in seen then seen[k] else None
  }

  function Undo(s: Store, d: RollbackStep): Store {
    if d.prev.Some? then s[d.key := d.prev.value] else s - {d.key}
  }

  /** The log undone from its last entry to its first. */
  function UndoAll(s: Store, done: seq<RollbackStep>): Store
    decreases |done|
  {
    if done == [] then s else UndoAll(Undo(s, done[|done| - 1]), done[..|done| - 1])
  }

  predicate Logged(done: seq<RollbackStep>, k: Key) {
    done != [] && (done[|done| - 1].key == k || Logged(done[..|done| - 1], k))
  }

  /** Once a key is in the log, undoing the log sets it whatever it holds now. */
  lemma {:induction false} LoggedKeyIsReset(a: Store, b: Store, done: seq<RollbackStep>, k: Key)
    requires Logged(done, k) && a - {k} == b - {k}
    ensures UndoAll(a, done) == UndoAll(b, done)
    decreases |done|
  {
    var last, init := done[|done| - 1], done[..|done| - 1];
    if last.key == k {
      assert a - {k} == Undo(a, RollbackStep(k, None)) && b - {k} == Undo(b, RollbackStep(k, None));
      assert Undo(a, last) == Undo(a - {k}, last) && Undo(b, last) == Undo(b - {k}, last);
    } else {
      assert Undo(a, last) - {k} == Undo(a - {k}, last) && Undo(b, last) - {k} == Undo(b - {k}, last);
      LoggedKeyIsReset(Undo(a, last), Undo(b, last), init, k);
    }
  }

  /** What links the running batch to the state it started from. */
  ghost predicate Recoverable(start: Store, s: Store, overlay: Overlay, seen: Seen, done: seq<RollbackStep>) {
    && UndoAll(s, done) == start
    && (forall k :: !Logged(done, k) ==> Lookup(s, k) == Lookup(start, k) && k !in overlay)
    && (forall k :: k in seen ==> seen[k] == Lookup(start, k))
    && forall k :: Logged(done, k) ==> At(overlay, seen, k).Some? || k !in seen
  }

  /** Undoing a write of `k`, then the log, reaches the start. */
  lemma UndoneWrite(start: Store, s: Store, overlay: Overlay, seen: Seen, done: seq<RollbackStep>, k: Key,
      next: Option<Doc>)
    requires Recoverable(start, s, overlay, seen, done)
    requires k in seen || k in overlay || k !in s
    ensures UndoAll(Undo(Undo(s, RollbackStep(k, next)), RollbackStep(k, At(overlay, seen, k))), done) == start
  {
    var undone := Undo(Undo(s, RollbackStep(k, next)), RollbackStep(k, At(overlay, seen, k)));
    if Logged(done, k) {
      assert undone - {k} == s - {k};
      LoggedKeyIsReset(undone, s, done, k);
    } else {
      assert Lookup(s, k) == At(overlay, seen, k);
      assert undone == s;
    }
  }

  /** A write of key `k` that logs what the overlay showed keeps the start recoverable,
      even where the overlay is out of date. */
  lemma WriteRecoverable(start: Store, s: Store, overlay: Overlay, seen: Seen, done: seq<RollbackStep>,
                         k: Key, next: Option<Doc>, overlay': Overlay)
    requires Recoverable(start, s, overlay, seen, done)
    requires k in seen || k in overlay || k !in s
    requires (next.Some? && overlay' == overlay[k := next]) || (At(overlay, seen, k).Some? && overlay' == overlay)
    ensures Recoverable(start, Undo(s, RollbackStep(k, next)), overlay', seen,
                        done + [RollbackStep(k, At(overlay, seen, k))])
  {
    var s', done' := Undo(s, RollbackStep(k, next)), done + [RollbackStep(k, At(overlay, seen, k))];
    assert done'[..|done|] == done;
    UndoneWrite(start, s, overlay, seen, done, k, next);
    forall j ensures Logged(done', j) <==> j == k || Logged(done, j) {}
    forall j | !Logged(done', j) ensures Lookup(s', j) == Lookup(start, j) && j !in overlay' {
      assert !Logged(done, j);
    }
  }

  // ---------- A batch that meets no failed write ----------

  datatype Emulation = Emulation(store: Store, overlay: Overlay, outs: seq<TxOut>)

  /** A put's id: the caller's, or one made up for the operation's position. */
  function PutId(op: TxOp, newId: nat -> string, n: nat): string {
    if op.id == "" then newId(n) else op.id
  }

  function PutBody(op: TxOp, prev: Option<Doc>, stamp: Json): Body
    requires op.kind.Put?
  {
    ((if op.kind.merge then DataOr(prev) else map[]) + DataOr(op.doc))["updatedAt" := stamp]
  }

  /** A delete leaves the overlay as it was. */
  function EmulateOp(seen: Seen, e: Emulation, op: TxOp, newId: nat -> string, stamp: nat -> Json): Emulation {
    var id := if op.kind.Put? then PutId(op, newId, |e.outs|) else op.id;
    var key := (op.collection, id);
    var prev := At(e.overlay, seen, key);
    match op.kind
    case Read => e.(outs := e.outs + [TxOut(prev, prev.Some?)])
    case Delete =>
      Emulation(if prev.Some? then e.store - {key} else e.store, e.overlay, e.outs + [TxOut(prev, prev.Some?)])
    case Put(_, _) =>
      var doc := Doc(id, PutBody(op, prev, stamp(|e.outs|)));
      Emulation(e.store[key := doc], e.overlay[key := Some(doc)], e.outs + [TxOut(Some(doc), prev.Some?)])
  }

  /** A put without an id is the put with the id made up for its position. */
  lemma MadeUpIdIsGiven(seen: Seen, e: Emulation, op: TxOp, newId: nat -> string, stamp: nat -> Json)
    requires op.kind.Put? && op.id == "" && newId(|e.outs|) != ""
    ensures EmulateOp(seen, e, op, newId, stamp) == EmulateOp(seen, e, op.(id := newId(|e.outs|)), newId, stamp)
  {}

  function Emulate(seen: Seen, e: Emulation, ops: seq<TxOp>, newId: nat -> string, stamp: nat -> Json): Emulation
    decreases |ops|
  {
    if ops == [] then e else Emulate(seen, EmulateOp(seen, e, ops[0], newId, stamp), ops[1..], newId, stamp)
  }

  function Named(ops: seq<TxOp>): set<Key> {
    if ops == [] then {} else Named(ops[..|ops| - 1]) + {KeyOf(ops[|ops| - 1])}
  }

  lemma {:induction false} NamedBefore(ops: seq<TxOp>, n: nat, j: nat)
    requires j < n <= |ops|
    ensures KeyOf(ops[j]) in Named(ops[..n])
  {
    assert ops[..n][..n - 1] == ops[..n - 1];
    if j < n - 1 {
      NamedBefore(ops, n - 1, j);
    }
  }

  lemma {:induction false} NamedWhere(ops: seq<TxOp>, n: nat, k: Key)
    requires n <= |ops| && k in Named(ops[..n])
    ensures exists j :: 0 <= j < n && KeyOf(ops[j]) == k
  {
    assert ops[..n][..n - 1] == ops[..n - 1];
    if k != KeyOf(ops[n - 1]) {
      NamedWhere(ops, n - 1, k);
    }
  }

  /** A must-exist put that is its key's first mention, on a missing document. */
  predicate FirstAndMissing(s: Store, ops: seq<TxOp>, i: nat)
    requires i < |ops|
  {
    ops[i].kind.Put? && ops[i].kind.mustExist && KeyOf(ops[i]) !in s && KeyOf(ops[i]) !in Named(ops[..i])
  }

  predicate Refused(s: Store, ops: seq<TxOp>) {
    exists i :: 0 <= i < |ops| && FirstAndMissing(s, ops, i)
  }

  /** What phase one sees: the state of every key the batch names. */
  function SeenAt(s: Store, ops: seq<TxOp>): Seen {
    map k | k in Named(ops) :: Lookup(s, k)
  }

  class RethinkDb {
    var store: Store

    /** A raw put replaces when the caller says the document exists, else inserts; an insert over an
        existing document is a conflict. A failed write changes nothing. */
    method RawPut(k: Key, doc: Doc, existed: bool, fault: bool) returns (ok: bool)
      modifies this
      ensures ok <==> !fault && (existed || k !in old(store))
      ensures store == if ok then old(store)[k := doc] else old(store)
    {
      ok := !fault && (existed || k !in store);
      if ok {
        store := store[k := doc];
      }
    }

    method RawDelete(k: Key, fault: bool) returns (ok: bool)
      modifies this
      ensures ok == !fault && store == if ok then old(store) - {k} else old(store)
    {
      ok := !fault;
      if ok {
        store := store - {k};
      }
    }

    /** Undo writes are taken to succeed. */
    method Rollback(done: seq<RollbackStep>)
      modifies this
      ensures store == UndoAll(old(store), done)
    {
      var rest := done;
      while rest != []
        invariant UndoAll(store, rest) == UndoAll(old(store), done)
      {
        var d := rest[|rest| - 1];
        match d.prev {
          case Some(doc) => store := store[d.key := doc];
          case None => store := store - {d.key};
        }
        rest := rest[..|rest| - 1];
      }
    }

    /** Phase one: the state of every key at its first mention. */
    method Gather(ops: seq<TxOp>) returns (r: Result<Seen, AppError>)
      ensures r == if Refused(store, ops) then Err(NotFound) else Ok(SeenAt(store, ops))
    {
      var seen: Seen := map[];
      for n := 0 to |ops|
        invariant seen == SeenAt(store, ops[..n])
        invariant forall i :: 0 <= i < n ==> !FirstAndMissing(store, ops, i)
      {
        assert ops[..n + 1][..n] == ops[..n];
        var key := KeyOf(ops[n]);
        if key !in seen {
          var prev := Lookup(store, key);
          if ops[n].kind.Put? && ops[n].kind.mustExist && prev.None? {
            assert FirstAndMissing(store, ops, n);
            return Err(NotFound);
          }
          seen := seen[key := prev];
        }
      }
      assert ops[..|ops|] == ops;
      return Ok(seen);
    }

    /** Applies one operation over the overlay and logs its inverse. */
    method ApplyOp(op: TxOp, seen: Seen, overlay: Overlay, done: seq<RollbackStep>, outs: seq<TxOut>,
                   fault: bool, newId: nat -> string, stamp: nat -> Json, ghost start: Store)
      returns (ok: bool, overlay': Overlay, done': seq<RollbackStep>, out: TxOut)
      requires Recoverable(start, store, overlay, seen, done)
      requires (op.collection, op.id) in seen
      modifies this
      ensures !ok ==> store == old(store) && done' == done && (fault || op.id == "")
      ensures ok ==> Recoverable(start, store, overlay', seen, done')
                     && Emulation(store, overlay', outs + [out])
                        == EmulateOp(seen, Emulation(old(store), overlay, outs), op, newId, stamp)
    {
      ok, overlay', done' := true, overlay, done;
      match op.kind {
        case Read =>
          var doc := At(overlay, seen, (op.collection, op.id));
          out := TxOut(doc, doc.Some?);
        case Delete =>
          var key := (op.collection, op.id);
          var prev := At(overlay, seen, key);
          out := TxOut(prev, prev.Some?);
          if prev.Some? {
            WriteRecoverable(start, store, overlay, seen, done, key, None, overlay);
            ok := RawDelete(key, fault);
            if ok {
              done' := done + [RollbackStep(key, prev)];
            }
          }
        case Put(merge, _) =>
          var id := if op.id == "" then newId(|outs|) else op.id;
          var key := (op.collection, id);
          var prev := At(overlay, seen, key);
          var data := if merge then DataOr(prev) else map[];
          data := data + DataOr(op.doc);
          var doc := Doc(id, data["updatedAt" := stamp(|outs|)]);
          assert doc.data == PutBody(op, prev, stamp(|outs|));
          out := TxOut(Some(doc), prev.Some?);
          ok := RawPut(key, doc, prev.Some?, fault);
          if ok {
            WriteRecoverable(start, old(store), overlay, seen, done, key, Some(doc), overlay[key := Some(doc)]);
            done' := done + [RollbackStep(key, prev)];
            overlay' := overlay[key := Some(doc)];
          }
      }
    }

    /** The emulated batch. `fault(n)` makes the n-th operation's write fail, `newId(n)` is the id made up
        for an operation without one, `stamp(n)` its update stamp. A batch that fails leaves the store as it was. */
    method RunTransaction(ops: seq<TxOp>, fault: nat -> bool, newId: nat -> string, stamp: nat -> Json)
      returns (r: Result<seq<TxOut>, AppError>)
      modifies this
      ensures r.Err? ==> store == old(store)
      ensures r == Err(NotFound) <==> Refused(old(store), ops)
      ensures (forall n :: !fault(n)) && (forall op :: op in ops ==> op.id != "") ==> r != Err(Internal)
      ensures var start := Emulation(old(store), map[], []);
              var end := Emulate(SeenAt(old(store), ops), start, ops, newId, stamp);
              r.Ok? ==> r.value == end.outs && store == end.store
    {
      var gathered := Gather(ops);
      if gathered.Err? {
        return Err(gathered.error);
      }
      var seen := gathered.value;
      var overlay: Overlay := map[];
      var done: seq<RollbackStep> := [];
      var outs: seq<TxOut> := [];
      for n := 0 to |ops|
        invariant Recoverable(old(store), store, overlay, seen, done)
        invariant Emulate(seen, Emulation(store, overlay, outs), ops[n..], newId, stamp)
               == Emulate(seen, Emulation(old(store), map[], []), ops, newId, stamp)
      {
        assert ops[n..][1..] == ops[n + 1..] && ops[..|ops|] == ops;
        NamedBefore(ops, |ops|, n);
        var ok, out;
        ok, overlay, done, out := ApplyOp(ops[n], seen, overlay, done, outs, fault(n), newId, stamp, old(store));
        if !ok {
          Rollback(done);
          return Err(Internal);
        }
        outs := outs + [out];
      }
      return Ok(outs);
    }
  }

  // ---------- Against the reference driver ----------

  /** The operation with the stamp the driver adds to every put. */
  function Stamped(op: TxOp, stamp: Json): TxOp {
    if op.kind.Put? then op.(doc := Some(Doc(op.id, DataOr(op.doc)["updatedAt" := stamp]))) else op
  }

  function StampAll(ops: seq<TxOp>, stamp: nat -> Json): (r: seq<TxOp>)
    ensures |r| == |ops| && forall i :: 0 <= i < |ops| ==> r[i] == Stamped(ops[i], stamp(i))
  {
    if ops == [] then [] else StampAll(ops[..|ops| - 1], stamp) + [Stamped(ops[|ops| - 1], stamp(|ops| - 1))]
  }

  predicate AllNamed(ops: seq<TxOp>) {
    forall op :: op in ops ==> op.id != ""
  }

  /** By operation `n` a delete has found the document. */
  predicate Gone(s: Store, ops: seq<TxOp>, n: nat, k: Key)
    requires n <= |ops|
  {
    n > 0 &&
    (Gone(s, ops, n - 1, k) || (ops[n - 1].kind.Delete? && KeyOf(ops[n - 1]) == k && Fate(s, ops, n - 1, k).Some?))
  }

  /** Operation `j` uses a key that a delete before it found. */
  predicate UsesGone(s: Store, ops: seq<TxOp>, j: nat)
    requires j < |ops|
  {
    Gone(s, ops, j, KeyOf(ops[j]))
  }

  /** What the overlay shows of a key: the truth, but an old document for a key that is gone. */
  ghost predicate Shows(s: Store, ops: seq<TxOp>, n: nat, seen: Seen, e: Emulation, k: Key)
    requires n <= |ops|
  {
    if Gone(s, ops, n, k) then At(e.overlay, seen, k).Some? && Fate(s, ops, n, k).None?
    else At(e.overlay, seen, k) == Fate(s, ops, n, k)
  }

  /** The reference's results of the first `n` operations. */
  function OutsTo(s: Store, ops: seq<TxOp>, n: nat): (outs: seq<TxOut>)
    requires n <= |ops|
    ensures |outs| == n
  {
    if n == 0 then [] else OutsTo(s, ops, n - 1) + [OutAt(s, ops, n - 1)]
  }

  lemma {:induction false} OutsToAt(s: Store, ops: seq<TxOp>, n: nat, j: nat)
    requires j < n <= |ops|
    ensures OutsTo(s, ops, n)[j] == OutAt(s, ops, j)
  {
    if j < n - 1 {
      OutsToAt(s, ops, n - 1, j);
    }
  }

  lemma StampedPut(op: TxOp, prev: Option<Doc>, stamp: Json)
    requires op.kind.Put?
    ensures PutDoc(Stamped(op, stamp), prev) == Doc(op.id, PutBody(op, prev, stamp))
  {
    var base := if op.kind.merge then DataOr(prev) else map[];
    assert base + DataOr(op.doc)["updatedAt" := stamp] == (base + DataOr(op.doc))["updatedAt" := stamp];
  }

  /** One operation on a key that is not gone, seen from one key. */
  lemma KeyInStep(s: Store, ops: seq<TxOp>, n: nat, seen: Seen, e: Emulation, op: TxOp, newId: nat -> string,
                  stamp: nat -> Json, k: Key)
    requires n < |ops| && |e.outs| == n && op.id != "" && ops[n] == Stamped(op, stamp(n)) && !UsesGone(s, ops, n)
    requires Shows(s, ops, n, seen, e, KeyOf(op)) && Lookup(e.store, KeyOf(op)) == Fate(s, ops, n, KeyOf(op))
    ensures var e' := EmulateOp(seen, e, op, newId, stamp);
            && e'.outs == e.outs + [OutAt(s, ops, n)]
            && (Lookup(e.store, k) == Fate(s, ops, n, k) ==> Lookup(e'.store, k) == Fate(s, ops, n + 1, k))
            && (Shows(s, ops, n, seen, e, k) ==> Shows(s, ops, n + 1, seen, e', k))
  {
    if op.kind.Put? {
      StampedPut(op, Fate(s, ops, n, KeyOf(op)), stamp(n));
    }
  }

  /** The emulation after its first `n` operations. */
  function EmulateTo(seen: Seen, start: Emulation, ops: seq<TxOp>, n: nat, newId: nat -> string, stamp: nat -> Json)
    : Emulation
    requires n <= |ops|
  {
    if n == 0 then start
    else EmulateOp(seen, EmulateTo(seen, start, ops, n - 1, newId, stamp), ops[n - 1], newId, stamp)
  }

  lemma {:induction false} EmulateToEnd(seen: Seen, start: Emulation, ops: seq<TxOp>, n: nat, newId: nat -> string,
                                        stamp: nat -> Json)
    requires n <= |ops|
    ensures Emulate(seen, EmulateTo(seen, start, ops, n, newId, stamp), ops[n..], newId, stamp)
            == EmulateTo(seen, start, ops, |ops|, newId, stamp)
    decreases |ops| - n
  {
    if n < |ops| {
      assert ops[n..][0] == ops[n] && ops[n..][1..] == ops[n + 1..];
      EmulateToEnd(seen, start, ops, n + 1, newId, stamp);
    }
  }

  lemma OneOut(seen: Seen, e: Emulation, op: TxOp, newId: nat -> string, stamp: nat -> Json)
    ensures |EmulateOp(seen, e, op, newId, stamp).outs| == |e.outs| + 1
    ensures EmulateOp(seen, e, op, newId, stamp).outs[..|e.outs|] == e.outs
  {}

  lemma {:induction false} EmulateToExtends(seen: Seen, start: Emulation, ops: seq<TxOp>, m: nat, n: nat,
                                            newId: nat -> string, stamp: nat -> Json)
    requires m <= n <= |ops| && start.outs == []
    ensures |EmulateTo(seen, start, ops, m, newId, stamp).outs| == m
    ensures |EmulateTo(seen, start, ops, n, newId, stamp).outs| == n
    ensures EmulateTo(seen, start, ops, n, newId, stamp).outs[..m] == EmulateTo(seen, start, ops, m, newId, stamp).outs
    decreases n
  {
    if n > 0 {
      EmulateToExtends(seen, start, ops, if m < n then m else n - 1, n - 1, newId, stamp);
      OneOut(seen, EmulateTo(seen, start, ops, n - 1, newId, stamp), ops[n - 1], newId, stamp);
    }
  }

  /** `stamped` are the operations with their stamps. */
  ghost predicate StampsOf(ops: seq<TxOp>, stamped: seq<TxOp>, stamp: nat -> Json) {
    |stamped| == |ops| && forall i :: 0 <= i < |ops| ==> stamped[i] == Stamped(ops[i], stamp(i))
  }

  /** Before any use of a key that is gone, results and documents are the reference's, and so is what the overlay shows
      of the keys the batch names, but for those that are gone. */
  lemma {:induction false} EmulatedKey(s: Store, ops: seq<TxOp>, stamped: seq<TxOp>, n: nat, newId: nat -> string,
                                       stamp: nat -> Json, k: Key)
    requires AllNamed(ops) && StampsOf(ops, stamped, stamp) && n <= |ops|
    requires forall j :: 0 <= j < n ==> !UsesGone(s, stamped, j)
    ensures var e := EmulateTo(SeenAt(s, ops), Emulation(s, map[], []), ops, n, newId, stamp);
            && |e.outs| == n && (n > 0 ==> e.outs[n - 1] == OutAt(s, stamped, n - 1))
            && Lookup(e.store, k) == Fate(s, stamped, n, k)
            && (k in Named(ops) ==> Shows(s, stamped, n, SeenAt(s, ops), e, k))
  {
    if n > 0 {
      var op, e := ops[n - 1], EmulateTo(SeenAt(s, ops), Emulation(s, map[], []), ops, n - 1, newId, stamp);
      assert op in ops;
      NamedBefore(ops, |ops|, n - 1);
      assert ops[..|ops|] == ops;
      EmulatedKey(s, ops, stamped, n - 1, newId, stamp, k);
      EmulatedKey(s, ops, stamped, n - 1, newId, stamp, KeyOf(op));
      KeyInStep(s, stamped, n - 1, SeenAt(s, ops), e, op, newId, stamp, k);
    }
  }

  lemma StampedAt(ops: seq<TxOp>, stamp: nat -> Json, i: nat)
    requires i < |ops|
    ensures KeyOf(StampAll(ops, stamp)[i]) == KeyOf(ops[i])
    ensures StampAll(ops, stamp)[i].kind == ops[i].kind
  {}

  lemma {:induction false} SameNames(ops: seq<TxOp>, stamp: nat -> Json)
    ensures Named(StampAll(ops, stamp)) == Named(ops)
  {
    var stamped := StampAll(ops, stamp);
    if ops != [] {
      var n := |ops| - 1;
      SameNames(ops[..n], stamp);
      StampedPrefix(ops, stamp, n);
      StampedAt(ops, stamp, n);
      assert Named(stamped) == Named(stamped[..n]) + {KeyOf(stamped[n])};
    }
  }

  /** Before a key is named its document is as it was. */
  lemma {:induction false} UnnamedIsUntouched(s: Store, ops: seq<TxOp>, n: nat, k: Key)
    requires n <= |ops| && k !in Named(ops[..n])
    ensures Fate(s, ops, n, k) == Lookup(s, k)
  {
    if n > 0 {
      assert ops[..n][..n - 1] == ops[..n - 1];
      UnnamedIsUntouched(s, ops, n - 1, k);
    }
  }

  lemma {:induction false} StampedPrefix(ops: seq<TxOp>, stamp: nat -> Json, n: nat)
    requires n <= |ops|
    ensures StampAll(ops, stamp)[..n] == StampAll(ops[..n], stamp)
    decreases |ops|
  {
    if n == |ops| {
      assert ops[..n] == ops && StampAll(ops, stamp)[..n] == StampAll(ops, stamp);
    } else {
      var init := ops[..|ops| - 1];
      StampedPrefix(init, stamp, n);
      assert init[..n] == ops[..n];
    }
  }

  /** What phase one refuses the reference refuses too. */
  lemma RefusedIsMissing(s: Store, ops: seq<TxOp>, stamp: nat -> Json, i: nat)
    requires i < |ops| && FirstAndMissing(s, ops, i)
    ensures Missing(s, StampAll(ops, stamp), i)
  {
    StampedAt(ops, stamp, i);
    StampedPrefix(ops, stamp, i);
    SameNames(ops[..i], stamp);
    UnnamedIsUntouched(s, StampAll(ops, stamp), i, KeyOf(ops[i]));
  }

  /** A use of a key that is gone is answered with a document where the reference has none. */
  lemma GoneTells(s: Store, ops: seq<TxOp>, stamped: seq<TxOp>, n: nat, newId: nat -> string, stamp: nat -> Json)
    requires AllNamed(ops) && StampsOf(ops, stamped, stamp) && n < |ops|
    requires (forall j :: 0 <= j < n ==> !UsesGone(s, stamped, j)) && UsesGone(s, stamped, n)
    ensures var outs := EmulateTo(SeenAt(s, ops), Emulation(s, map[], []), ops, n + 1, newId, stamp).outs;
            |outs| == n + 1 && outs[n].existed && !OutAt(s, stamped, n).existed
  {
    assert ops[n] in ops && ops[..|ops|] == ops;
    NamedBefore(ops, |ops|, n);
    EmulatedKey(s, ops, stamped, n, newId, stamp, KeyOf(ops[n]));
  }

  /** What the driver answers when no write fails. */
  function Answer(s: Store, ops: seq<TxOp>, newId: nat -> string, stamp: nat -> Json): Result<Applied, AppError> {
    if Refused(s, ops) then Err(NotFound)
    else
      var end := Emulate(SeenAt(s, ops), Emulation(s, map[], []), ops, newId, stamp);
      Ok(Applied(end.store, end.outs))
  }

  /** The results and documents `e` are the reference's own, told one by one. */
  ghost predicate ByHistory(s: Store, ops: seq<TxOp>, e: Emulation) {
    && |e.outs| == |ops| && (forall j :: 0 <= j < |ops| ==> e.outs[j] == OutAt(s, ops, j))
    && forall k :: Lookup(e.store, k) == Fate(s, ops, |ops|, k)
  }

  /** Result `j` of the whole emulation, when all before it is safe. */
  lemma OutOf(s: Store, ops: seq<TxOp>, stamped: seq<TxOp>, j: nat, newId: nat -> string, stamp: nat -> Json)
    requires AllNamed(ops) && StampsOf(ops, stamped, stamp) && j < |ops|
    requires forall i :: 0 <= i < j ==> !UsesGone(s, stamped, i)
    ensures var outs := EmulateTo(SeenAt(s, ops), Emulation(s, map[], []), ops, |ops|, newId, stamp).outs;
            |outs| == |ops| && (outs[j] == OutAt(s, stamped, j) <==> !UsesGone(s, stamped, j))
  {
    EmulateToExtends(SeenAt(s, ops), Emulation(s, map[], []), ops, j + 1, |ops|, newId, stamp);
    if UsesGone(s, stamped, j) {
      GoneTells(s, ops, stamped, j, newId, stamp);
    } else {
      EmulatedKey(s, ops, stamped, j + 1, newId, stamp, ("", ""));
    }
  }

  lemma SafeByHistory(s: Store, ops: seq<TxOp>, stamped: seq<TxOp>, newId: nat -> string, stamp: nat -> Json,
                      end: Emulation)
    requires AllNamed(ops) && StampsOf(ops, stamped, stamp) && forall j :: 0 <= j < |ops| ==> !UsesGone(s, stamped, j)
    requires end == EmulateTo(SeenAt(s, ops), Emulation(s, map[], []), ops, |ops|, newId, stamp)
    ensures ByHistory(s, stamped, end)
  {
    EmulatedKey(s, ops, stamped, |ops|, newId, stamp, ("", ""));
    forall j | 0 <= j < |ops| ensures end.outs[j] == OutAt(s, stamped, j) {
      OutOf(s, ops, stamped, j, newId, stamp);
    }
    forall k ensures Lookup(end.store, k) == Fate(s, stamped, |ops|, k) {
      EmulatedKey(s, ops, stamped, |ops|, newId, stamp, k);
    }
  }

  lemma AnswerByHistory(s: Store, ops: seq<TxOp>, stamped: seq<TxOp>, newId: nat -> string, stamp: nat -> Json,
                        end: Emulation)
    requires AllNamed(ops) && StampsOf(ops, stamped, stamp)
    requires end == EmulateTo(SeenAt(s, ops), Emulation(s, map[], []), ops, |ops|, newId, stamp)
    ensures ByHistory(s, stamped, end) <==> forall j :: 0 <= j < |ops| ==> !UsesGone(s, stamped, j)
  {
    if exists j :: 0 <= j < |ops| && UsesGone(s, stamped, j) {
      var n := FirstUse(s, stamped);
      OutOf(s, ops, stamped, n, newId, stamp);
    } else {
      SafeByHistory(s, ops, stamped, newId, stamp, end);
    }
  }

  lemma FirstUse(s: Store, ops: seq<TxOp>) returns (n: nat)
    requires exists j :: 0 <= j < |ops| && UsesGone(s, ops, j)
    ensures n < |ops| && UsesGone(s, ops, n) && forall j :: 0 <= j < n ==> !UsesGone(s, ops, j)
  {
    n := 0;
    while !UsesGone(s, ops, n)
      invariant n < |ops| && forall j :: 0 <= j < n ==> !UsesGone(s, ops, j)
      invariant exists j :: n <= j < |ops| && UsesGone(s, ops, j)
      decreases |ops| - n
    {
      n := n + 1;
    }
  }

  /** The reference's answer, told by its results and by every document. */
  lemma ReferenceIs(s: Store, ops: seq<TxOp>, e: Emulation)
    ensures Run(s, [], ops) == Ok(Applied(e.store, e.outs)) <==>
              (forall j :: 0 <= j < |ops| ==> !Missing(s, ops, j)) && ByHistory(s, ops, e)
  {
    BatchByHistory(s, ops);
    if Run(s, [], ops).Ok? && ByHistory(s, ops, e) {
      var reference := Run(s, [], ops).value;
      assert reference.outs == e.outs;
      SameLookups(reference.store, e.store);
    }
  }

  /** For every batch whose ids are given, the emulation is the reference driver with stamps exactly when phase one
      refuses the batch, or no operation uses a key after a delete that found it and no must-exist put
      finds nothing. */
  lemma EmulationIsReferenceIff(s: Store, ops: seq<TxOp>, newId: nat -> string, stamp: nat -> Json)
    requires AllNamed(ops)
    ensures var stamped := StampAll(ops, stamp);
            Run(s, [], stamped) == Answer(s, ops, newId, stamp) <==>
              Refused(s, ops)
              || forall j :: 0 <= j < |ops| ==> !UsesGone(s, stamped, j) && !Missing(s, stamped, j)
  {
    var stamped := StampAll(ops, stamp);
    BatchByHistory(s, stamped);
    if Refused(s, ops) {
      var i :| 0 <= i < |ops| && FirstAndMissing(s, ops, i);
      RefusedIsMissing(s, ops, stamp, i);
    } else {
      var end := Emulate(SeenAt(s, ops), Emulation(s, map[], []), ops, newId, stamp);
      assert ops[0..] == ops;
      EmulateToEnd(SeenAt(s, ops), Emulation(s, map[], []), ops, 0, newId, stamp);
      AnswerByHistory(s, ops, stamped, newId, stamp, end);
      ReferenceIs(s, stamped, end);
    }
  }

  /** No key is used after its delete, a must-exist put comes first on its key, and every id is given. */
  predicate Clean(ops: seq<TxOp>) {
    && AllNamed(ops)
    && forall i, j :: 0 <= i < j < |ops| && KeyOf(ops[i]) == KeyOf(ops[j]) ==>
         !ops[i].kind.Delete? && !(ops[j].kind.Put? && ops[j].kind.mustExist)
  }

  lemma {:induction false} GoneWhere(s: Store, ops: seq<TxOp>, n: nat, k: Key)
    requires n <= |ops| && Gone(s, ops, n, k)
    ensures exists i :: 0 <= i < n && ops[i].kind.Delete? && KeyOf(ops[i]) == k
  {
    if Gone(s, ops, n - 1, k) {
      GoneWhere(s, ops, n - 1, k);
    }
  }

  lemma CleanUsesNoGone(s: Store, ops: seq<TxOp>, stamp: nat -> Json, j: nat)
    requires Clean(ops) && j < |ops|
    ensures !UsesGone(s, StampAll(ops, stamp), j)
  {
    var stamped := StampAll(ops, stamp);
    if UsesGone(s, stamped, j) {
      StampedAt(ops, stamp, j);
      GoneWhere(s, stamped, j, KeyOf(stamped[j]));
      var i :| 0 <= i < j && stamped[i].kind.Delete? && KeyOf(stamped[i]) == KeyOf(stamped[j]);
      StampedAt(ops, stamp, i);
      assert false;
    }
  }

  lemma CleanMissingIsRefused(s: Store, ops: seq<TxOp>, stamp: nat -> Json, j: nat)
    requires Clean(ops) && j < |ops| && Missing(s, StampAll(ops, stamp), j)
    ensures FirstAndMissing(s, ops, j)
  {
    StampedAt(ops, stamp, j);
    if KeyOf(ops[j]) in Named(ops[..j]) {
      NamedWhere(ops, j, KeyOf(ops[j]));
      assert false;
    }
    StampedPrefix(ops, stamp, j);
    SameNames(ops[..j], stamp);
    UnnamedIsUntouched(s, StampAll(ops, stamp), j, KeyOf(ops[j]));
  }

  /** So on clean batches, whatever the store, the emulation is the reference driver with stamps. */
  lemma CleanBatchIsReference(s: Store, ops: seq<TxOp>, newId: nat -> string, stamp: nat -> Json)
    requires Clean(ops)
    ensures Run(s, [], StampAll(ops, stamp)) == Answer(s, ops, newId, stamp)
  {
    var stamped := StampAll(ops, stamp);
    EmulationIsReferenceIff(s, ops, newId, stamp);
    forall j | 0 <= j < |ops| ensures !UsesGone(s, stamped, j) {
      CleanUsesNoGone(s, ops, stamp, j);
    }
    if !Refused(s, ops) {
      forall j | 0 <= j < |ops| ensures !Missing(s, stamped, j) {
        if Missing(s, stamped, j) {
          CleanMissingIsRefused(s, ops, stamp, j);
        }
      }
    }
  }

  /** A read after a delete in one batch still sees the document; the reference sees it gone. */
  lemma ReadAfterDeleteIsStale(k: Key, d: Doc, newId: nat -> string, stamp: nat -> Json)
    ensures var ops := [TxOp(k.0, k.1, TxOpKind.Delete, None), TxOp(k.0, k.1, TxOpKind.Read, None)];
            var s: Store := map[k := d];
            && !Refused(s, ops) && UsesGone(s, StampAll(ops, stamp), 1)
            && Answer(s, ops, newId, stamp) == Ok(Applied(map[], [TxOut(Some(d), true), TxOut(Some(d), true)]))
            && Run(s, [], StampAll(ops, stamp)) == Ok(Applied(map[], [TxOut(Some(d), true), TxOut(None, false)]))
  {
    var del, read := TxOp(k.0, k.1, TxOpKind.Delete, None), TxOp(k.0, k.1, TxOpKind.Read, None);
    var ops := [del, read];
    var s: Store := map[k := d];
    var seen := SeenAt(s, ops);
    assert ops[1..] == [read] && [read][1..] == [];
    assert del in ops && seen[k] == Some(d) && s - {k} == map[];
    var e1 := EmulateOp(seen, Emulation(s, map[], []), del, newId, stamp);
    assert e1 == Emulation(map[], map[], [TxOut(Some(d), true)]);
    var e2 := EmulateOp(seen, e1, read, newId, stamp);
    assert e2 == Emulation(map[], map[], [TxOut(Some(d), true), TxOut(Some(d), true)]);
    assert Emulate(seen, Emulation(s, map[], []), ops, newId, stamp) == Emulate(seen, e1, [read], newId, stamp)
        == Emulate(seen, e2, [], newId, stamp);
    assert StampAll(ops, stamp) == ops;
    assert ops[..1] == [del] && ops[..0] == [] && KeyOf(del) == KeyOf(read) == k;
    assert Fate(s, ops, 0, k) == Some(d) && Gone(s, ops, 1, k);
    var outs1 := [TxOut(Some(d), true)];
    assert [] + [TxOut(Some(d), true)] == outs1;
    assert Step(s, del) == Ok((map[], TxOut(Some(d), true)));
    assert Step(map[], read) == Ok((map[], TxOut(None, false)));
    assert Run(s, [], ops) == Run(map[], outs1, [read]) == Run(map[], outs1 + [TxOut(None, false)], []);
    assert outs1 + [TxOut(None, false)] == [TxOut(Some(d), true), TxOut(None, false)];
  }
}
