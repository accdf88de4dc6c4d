/** Batch operations and the reference driver: `MemDb` applies a batch to a scratch copy
    and swaps it in when every operation succeeded. */
module Transactions {
  import opened Values

  datatype AppError = NotFound | AlreadyExists | Internal

  datatype TxOpKind = Read | Put(merge: bool, mustExist: bool) | Delete

  datatype TxOp = TxOp(collection: string, id: string, kind: TxOpKind, doc: Option<Doc>)

  datatype TxOut = TxOut(doc: Option<Doc>, existed: bool)

  /** State and per-operation results of a batch that did not abort. */
  datatype Applied = Applied(store: Store, outs: seq<TxOut>)

  function DataOr(d: Option<Doc>): Body {
    if d.Some? then d.value.data else map[]
  }

  /** The document a Put writes: the old body (merge) or nothing, extended by the new body. */
  function PutDoc(op: TxOp, prev: Option<Doc>): Doc
    requires op.kind.Put?
  {
    Doc(op.id, (if op.kind.merge then DataOr(prev) else map[]) + DataOr(op.doc))
  }

  /** One operation on a flat store. */
  function Step(s: Store, op: TxOp): Result<(Store, TxOut), AppError> {
    var key := (op.collection, op.id);
    var prev := Lookup(s, key);
    match op.kind
    case Read => Ok((s, TxOut(prev, prev.Some?)))
    case Put(_, mustExist) =>
      if mustExist && prev.None? then Err(NotFound)
      else
        var doc := PutDoc(op, prev);
        Ok((s[key := doc], TxOut(Some(doc), prev.Some?)))
    case Delete => Ok((s - {key}, TxOut(prev, prev.Some?)))
  }

  /** A batch on a flat store; the first error aborts it. */
  function Run(s: Store, outs: seq<TxOut>, ops: seq<TxOp>): Result<Applied, AppError>
    decreases |ops|
  {
    if ops == [] then Ok(Applied(s, outs))
    else
      match Step(s, ops[0])
      case Err(e) => Err(e)
      case Ok((s', o)) => Run(s', outs + [o], ops[1..])
  }

  // ---------- What a batch means, document by document ----------

  function KeyOf(op: TxOp): Key { (op.collection, op.id) }

  /** One document's fate over the first `n` operations: only the operations that name it matter. */
  function Fate(s: Store, ops: seq<TxOp>, n: nat, k: Key): Option<Doc>
    requires n <= |ops|
  {
    if n == 0 then Lookup(s, k)
    else
      var op, before := ops[n - 1], Fate(s, ops, n - 1, k);
      if KeyOf(op) != k || op.kind.Read? then before
      else if op.kind.Delete? then None
      else Some(PutDoc(op, before))
  }

  /** A must-exist put on a document that is not there at that point. */
  predicate Missing(s: Store, ops: seq<TxOp>, n: nat)
    requires n < |ops|
  {
    ops[n].kind.Put? && ops[n].kind.mustExist && Fate(s, ops, n, KeyOf(ops[n])).None?
  }

  /** Results of operation `n`: a put shows what it wrote, a read or delete what was there. */
  function OutAt(s: Store, ops: seq<TxOp>, n: nat): TxOut
    requires n < |ops|
  {
    TxOut(Fate(s, ops, if ops[n].kind.Put? then n + 1 else n, KeyOf(ops[n])), Fate(s, ops, n, KeyOf(ops[n])).Some?)
  }

  lemma {:induction false} RunFrom(s0: Store, ops: seq<TxOp>, n: nat, s: Store, outs: seq<TxOut>)
    requires n <= |ops| && |outs| == n
    requires forall k :: Lookup(s, k) == Fate(s0, ops, n, k)
    requires forall j :: 0 <= j < n ==> outs[j] == OutAt(s0, ops, j)
    ensures match Run(s, outs, ops[n..])
            case Ok(a) =>
              && (forall j :: n <= j < |ops| ==> !Missing(s0, ops, j))
              && |a.outs| == |ops| && (forall j :: 0 <= j < |ops| ==> a.outs[j] == OutAt(s0, ops, j))
              && forall k :: Lookup(a.store, k) == Fate(s0, ops, |ops|, k)
            case Err(e) => e == NotFound && exists j :: n <= j < |ops| && Missing(s0, ops, j)
    decreases |ops| - n
  {
    if n < |ops| {
      assert ops[n..][1..] == ops[n + 1..];
      var step := Step(s, ops[n]);
      if step.Ok? {
        RunFrom(s0, ops, n + 1, step.value.0, outs + [step.value.1]);
      } else {
        assert Missing(s0, ops, n);
      }
    }
  }

  /** A batch aborts exactly when some must-exist put finds nothing at its point; otherwise every result and
      every final document is that document's own history, so reads see the batch's own writes. */
  lemma BatchByHistory(s: Store, ops: seq<TxOp>)
    ensures match Run(s, [], ops)
            case Ok(a) =>
              && (forall j :: 0 <= j < |ops| ==> !Missing(s, ops, j))
              && |a.outs| == |ops| && (forall j :: 0 <= j < |ops| ==> a.outs[j] == OutAt(s, ops, j))
              && forall k :: Lookup(a.store, k) == Fate(s, ops, |ops|, k)
            case Err(e) => e == NotFound && exists j :: 0 <= j < |ops| && Missing(s, ops, j)
  {
    assert ops[0..] == ops;
    RunFrom(s, ops, 0, s, []);
  }

  /** A put replaces the body, or with `merge` keeps exactly the old members the new body does not name. */
  lemma PutMembers(op: TxOp, prev: Option<Doc>, f: string)
    requires op.kind.Put?
    ensures var d, body := PutDoc(op, prev), DataOr(op.doc);
            && d.id == op.id
            && (f in d.data <==> f in body || (op.kind.merge && prev.Some? && f in prev.value.data))
            && (f in d.data ==> d.data[f] == if f in body then body[f] else prev.value.data[f])
  {}

  type Tables = map<string, map<string, Doc>>

  /** The flat view of a map of tables. */
  function Flatten(t: Tables): Store {
    map c, i | c in t && i in t[c] :: (c, i) := t[c][i]
  }

  function TableOf(t: Tables, c: string): map<string, Doc> {
    if c in t then t[c] else map[]
  }

  lemma FlattenLookup(t: Tables, c: string, i: string)
    ensures Lookup(Flatten(t), (c, i)) == if i in TableOf(t, c) then Some(TableOf(t, c)[i]) else None
  {
    assert (c, i) in Flatten(t) <==> c in t && i in t[c];
  }

  /** Replacing one table changes the flat view in that collection only. */
  lemma FlattenTable(t: Tables, c: string, table: map<string, Doc>, k: Key)
    ensures Lookup(Flatten(t[c := table]), k) ==
            if k.0 != c then Lookup(Flatten(t), k) else if k.1 in table then Some(table[k.1]) else None
  {
    FlattenLookup(t[c := table], k.0, k.1);
    FlattenLookup(t, k.0, k.1);
  }

  class MemDb {
    var store: Tables

    /** One operation on the scratch tables; touching a collection opens its table. */
    static method Apply(scratch: Tables, op: TxOp) returns (r: Result<(Tables, TxOut), AppError>)
      ensures match Step(Flatten(scratch), op)
              case Err(e) => r == Err(e)
              case Ok(p) => r.Ok? && Flatten(r.value.0) == p.0 && r.value.1 == p.1
    {
      var table := TableOf(scratch, op.collection);
      FlattenLookup(scratch, op.collection, op.id);
      var prev := if op.id in table then Some(table[op.id]) else None;
      var shown := prev;
      match op.kind {
        case Read =>
        case Put(merge, mustExist) =>
          if mustExist && prev.None? {
            return Err(NotFound);
          }
          var data := if merge then DataOr(prev) else map[];
          data := data + DataOr(op.doc);
          shown := Some(Doc(op.id, data));
          table := table[op.id := shown.value];
        case Delete =>
          table := table - {op.id};
      }
      var next := scratch[op.collection := table];
      ghost var flat := Step(Flatten(scratch), op).value.0;
      forall k ensures Lookup(Flatten(next), k) == Lookup(flat, k) {
        FlattenTable(scratch, op.collection, table, k);
        FlattenLookup(scratch, k.0, k.1);
      }
      SameLookups(Flatten(next), flat);
      r := Ok((next, TxOut(shown, prev.Some?)));
    }

    /** All operations or none, and reads observe the batch's own writes. */
    method RunTransaction(ops: seq<TxOp>) returns (r: Result<seq<TxOut>, AppError>)
      modifies this
      ensures match Run(old(Flatten(store)), [], ops)
              case Err(e) => r == Err(e) && store == old(store)
              case Ok(a) => r == Ok(a.outs) && Flatten(store) == a.store
    {
      var scratch := store;
      var out: seq<TxOut> := [];
      for n := 0 to |ops|
        invariant store == old(store)
        invariant Run(Flatten(store), [], ops) == Run(Flatten(scratch), out, ops[n..])
      {
        assert ops[n..][1..] == ops[n + 1..];
        var step := Apply(scratch, ops[n]);
        match step {
          case Err(e) => return Err(e);
          case Ok((next, o)) => scratch, out := next, out + [o];
        }
      }
      store := scratch;
      return Ok(out);
    }
  }
}
