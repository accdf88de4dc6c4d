/** The hako driver: a batch runs over an overlay of staged writes over committed state, and keeps the shadow
    index of unique values inside the same transaction. */
module HakoDriver {
  import opened Values
  import opened Transactions
  import opened HakoClaims

  // ---------- The driver ----------

  datatype Write = Put(key: Key, doc: Doc) | Del(key: Key)

  function ApplyWrite(s: Store, w: Write): Store {
    match w
    case Put(k, d) => s[k := d]
    case Del(k) => s - {k}
  }

  /** What a commit does with the transaction's write buffer. */
  function ApplyWrites(s: Store, ws: seq<Write>): Store {
    if ws == [] then s else ApplyWrite(ApplyWrites(s, ws[..|ws| - 1]), ws[|ws| - 1])
  }

  type Staged = map<Key, Option<Doc>>

  /** The staged-overlay read: a staged entry hides the committed one. */
  function ReadThrough(committed: Store, staged: Staged, k: Key): Option<Doc> {
    if k in staged then staged[k] else Lookup(committed, k)
  }

  /** `staged` and `buffer` describe the same view `v` of the committed state. */
  ghost predicate InStep(committed: Store, staged: Staged, buffer: seq<Write>, v: Store) {
    && ApplyWrites(committed, buffer) == v
    && forall k: Key :: ReadThrough(committed, staged, k) == Lookup(v, k)
  }

  lemma StageWrite(committed: Store, staged: Staged, buffer: seq<Write>, v: Store, w: Write)
    requires InStep(committed, staged, buffer, v)
    ensures InStep(committed, staged[w.key := if w.Put? then Some(w.doc) else None], buffer + [w], ApplyWrite(v, w))
  {
    assert (buffer + [w])[..|buffer|] == buffer;
    assert ApplyWrites(committed, buffer + [w]) == ApplyWrite(v, w);
    var staged' := staged[w.key := if w.Put? then Some(w.doc) else None];
    forall k: Key ensures ReadThrough(committed, staged', k) == Lookup(ApplyWrite(v, w), k) {
      assert ReadThrough(committed, staged, k) == Lookup(v, k);
    }
  }

  class HakoDb {
    var committed: Store
    const unique: Uniques
    const text: Printer

    constructor (unique: Uniques, text: Printer)
      ensures committed == map[] && this.unique == unique && this.text == text
    {
      committed := map[];
      this.unique := unique;
      this.text := text;
    }

    /** First half of the `claim` closure: unlink the old keys the new document does not keep. */
    method ReleaseStaged(staged: Staged, buffer: seq<Write>, scol: string, gone: seq<(string, string)>,
                         next: Option<Doc>, ghost v: Store)
      returns (staged': Staged, buffer': seq<Write>)
      requires InStep(committed, staged, buffer, v)
      ensures InStep(committed, staged', buffer', Release(text, v, scol, gone, next))
    {
      staged', buffer' := staged, buffer;
      ghost var now := v;
      for n := 0 to |gone|
        invariant InStep(committed, staged', buffer', now)
        invariant Release(text, now, scol, gone[n..], next) == Release(text, v, scol, gone, next)
      {
        assert gone[n..][1..] == gone[n + 1..];
        if !Keeps(text, next, gone[n]) {
          var w := Write.Del((scol, Sid(gone[n].0, gone[n].1)));
          StageWrite(committed, staged', buffer', now, w);
          staged', buffer', now := staged'[w.key := None], buffer' + [w], ApplyWrite(now, w);
        }
      }
    }

    /** Second half: link the new keys, stopping at one that another document holds. */
    method TakeStaged(staged: Staged, buffer: seq<Write>, scol: string, id: string, keys: seq<(string, string)>,
                      ghost v: Store)
      returns (r: Result<(Staged, seq<Write>), AppError>)
      requires InStep(committed, staged, buffer, v)
      ensures match Take(v, scol, id, keys)
              case Err(e) => r == Err(e)
              case Ok(s) => r.Ok? && InStep(committed, r.value.0, r.value.1, s)
    {
      var staged', buffer' := staged, buffer;
      ghost var now := v;
      for n := 0 to |keys|
        invariant InStep(committed, staged', buffer', now)
        invariant Take(now, scol, id, keys[n..]) == Take(v, scol, id, keys)
      {
        assert keys[n..][1..] == keys[n + 1..];
        var sid := Sid(keys[n].0, keys[n].1);
        assert ReadThrough(committed, staged', (scol, sid)) == Lookup(now, (scol, sid));
        var holder := HolderIn(ReadThrough(committed, staged', (scol, sid)));
        if holder.Some? && holder.value != id {
          return Err(AlreadyExists);
        }
        var w := Write.Put((scol, sid), ShadowDoc(sid, id));
        StageWrite(committed, staged', buffer', now, w);
        staged', buffer', now := staged'[w.key := Some(w.doc)], buffer' + [w], ApplyWrite(now, w);
      }
      r := Ok((staged', buffer'));
    }

    /** The `claim` closure of a running batch. */
    method ClaimStaged(staged: Staged, buffer: seq<Write>, c: string, id: string, prev: Option<Doc>, next: Option<Doc>,
                       ghost v: Store)
      returns (r: Result<(Staged, seq<Write>), AppError>)
      requires InStep(committed, staged, buffer, v)
      ensures match Claim(unique, text, v, c, id, prev, next)
              case Err(e) => r == Err(e)
              case Ok(s) => r.Ok? && InStep(committed, r.value.0, r.value.1, s)
    {
      var fields := FieldsOf(unique, c);
      if fields == [] {
        return Ok((staged, buffer));
      }
      var scol := UniqCollection(c);
      var gone := KeysOf(text, fields, prev);
      var staged', buffer' := ReleaseStaged(staged, buffer, scol, gone, next, v);
      r := TakeStaged(staged', buffer', scol, id, KeysOf(text, fields, next), Release(text, v, scol, gone, next));
    }

    /** Runs a batch; `commitOk` is the engine's answer to the final commit. */
    method RunTransaction(ops: seq<TxOp>, commitOk: bool) returns (r: Result<seq<TxOut>, AppError>)
      modifies this
      ensures match HakoRun(unique, text, old(committed), [], ops)
              case Err(e) => r == Err(e) && committed == old(committed)
              case Ok(a) =>
                if commitOk then r == Ok(a.outs) && committed == a.store
                else r == Err(Internal) && committed == old(committed)
    {
      var staged: Staged := map[];
      var buffer: seq<Write> := [];
      var out: seq<TxOut> := [];
      ghost var v := committed;
      for n := 0 to |ops|
        invariant committed == old(committed)
        invariant InStep(committed, staged, buffer, v)
        invariant HakoRun(unique, text, committed, [], ops) == HakoRun(unique, text, v, out, ops[n..])
      {
        assert ops[n..][1..] == ops[n + 1..];
        var op := ops[n];
        var key := (op.collection, op.id);
        var prev := ReadThrough(committed, staged, key);
        match op.kind {
          case Read =>
            out := out + [TxOut(prev, prev.Some?)];
          case Put(merge, mustExist) =>
            if mustExist && prev.None? {
              return Err(NotFound);
            }
            var doc := PutDoc(op, prev);
            StageWrite(committed, staged, buffer, v, Write.Put(key, doc));
            var claimed := ClaimStaged(staged[key := Some(doc)], buffer + [Write.Put(key, doc)],
                                   op.collection, op.id, prev, Some(doc), v[key := doc]);
            if claimed.Err? {
              return Err(claimed.error);
            }
            v := Claim(unique, text, v[key := doc], op.collection, op.id, prev, Some(doc)).value;
            staged, buffer := claimed.value.0, claimed.value.1;
            out := out + [TxOut(Some(doc), prev.Some?)];
          case Delete =>
            StageWrite(committed, staged, buffer, v, Del(key));
            var claimed := ClaimStaged(staged[key := None], buffer + [Del(key)],
                                   op.collection, op.id, prev, None, v - {key});
            if claimed.Err? {
              return Err(claimed.error);
            }
            v := Claim(unique, text, v - {key}, op.collection, op.id, prev, None).value;
            staged, buffer := claimed.value.0, claimed.value.1;
            out := out + [TxOut(prev, prev.Some?)];
        }
      }
      if !commitOk {
        return Err(Internal);
      }
      committed := ApplyWrites(committed, buffer);
      return Ok(out);
    }

    /** Single put: a batch of one on unique-enforced collections, a plain put elsewhere. */
    method Set(c: string, id: string, doc: Doc, merge: bool, commitOk: bool) returns (r: Result<Doc, AppError>)
      modifies this
      ensures var op := TxOp(c, id, TxOpKind.Put(merge, false), Some(doc));
              committed == HakoNext(unique, text, old(committed), [op], commitOk) &&
              match HakoRun(unique, text, old(committed), [], [op])
              case Err(e) => r == Err(e)
              case Ok(_) => if commitOk then r.Ok? else r == Err(Internal)
      ensures r.Err? ==> committed == old(committed)
      ensures r.Ok? ==> Lookup(committed, (c, id)) == Some(r.value)
                        && Stores(r.value, id, doc.data, merge, Lookup(old(committed), (c, id)))
                        && SameElsewhere(old(committed), committed, c, id)
      ensures r.Ok? && DistinctSids(FieldsOf(unique, c)) ==>
                Relinked(unique, text, old(committed), committed, c, id, Some(r.value))
    {
      var op := TxOp(c, id, TxOpKind.Put(merge, false), Some(doc));
      SingleOp(unique, text, committed, op);
      if HakoStep(unique, text, committed, op).Ok? {
        StepEffect(unique, text, committed, op);
      }
      if FieldsOf(unique, c) != [] {
        var out := RunTransaction([op], commitOk);
        if out.Err? {
          return Err(out.error);
        }
        return Ok(out.value[0].doc.value);
      }
      if !commitOk {
        return Err(Internal);
      }
      var data := if merge then DataOr(Lookup(committed, (c, id))) + doc.data else doc.data;
      assert data == PutDoc(op, Lookup(committed, (c, id))).data;
      committed := committed[(c, id) := Doc(id, data)];
      return Ok(Doc(id, data));
    }

    /** Single delete: reports the document that was there. */
    method Delete(c: string, id: string, commitOk: bool) returns (r: Result<Option<Doc>, AppError>)
      modifies this
      ensures var op := TxOp(c, id, TxOpKind.Delete, None);
              committed == HakoNext(unique, text, old(committed), [op], commitOk)
      ensures if commitOk then r.Ok? else r == Err(Internal) && committed == old(committed)
      ensures r.Ok? ==> r.value == Lookup(old(committed), (c, id)) && (c, id) !in committed
                        && SameElsewhere(old(committed), committed, c, id)
      ensures r.Ok? && DistinctSids(FieldsOf(unique, c)) ==>
                Relinked(unique, text, old(committed), committed, c, id, None)
    {
      var op := TxOp(c, id, TxOpKind.Delete, None);
      SingleOp(unique, text, committed, op);
      StepEffect(unique, text, committed, op);
      if FieldsOf(unique, c) != [] {
        var out := RunTransaction([op], commitOk);
        if out.Err? {
          return Err(out.error);
        }
        return Ok(out.value[0].doc);
      }
      if !commitOk {
        return Err(Internal);
      }
      r := Ok(Lookup(committed, (c, id)));
      committed := committed - {(c, id)};
    }
  }

  /** The document has this id and the members of the new body, and with `merge` also the old members that the new
      body does not name. */
  ghost predicate Stores(d: Doc, id: string, body: Body, merge: bool, prev: Option<Doc>) {
    && d.id == id
    && forall f :: && (f in d.data <==> f in body || (merge && prev.Some? && f in prev.value.data))
                   && (f in d.data ==> d.data[f] == if f in body then body[f] else prev.value.data[f])
  }

  // ---------- Runs ----------

  /** The committed state after a batch. */
  function HakoNext(u: Uniques, text: Printer, v: Store, ops: seq<TxOp>, commitOk: bool): Store {
    match HakoRun(u, text, v, [], ops)
    case Err(_) => v
    case Ok(a) => if commitOk then a.store else v
  }

  lemma SingleOp(u: Uniques, text: Printer, v: Store, op: TxOp)
    ensures HakoRun(u, text, v, [], [op]) ==
            match HakoStep(u, text, v, op)
            case Err(e) => Err(e)
            case Ok((v', o)) => Ok(Applied(v', [o]))
  {
    match HakoStep(u, text, v, op)
    case Err(_) =>
    case Ok((v', o)) =>
      assert [op][1..] == [];
      assert [] + [o] == [o];
  }
}
