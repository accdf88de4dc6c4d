/** The shadow index of the hako driver: what every batch keeps, and when a batch is refused. */
module HakoUnique {
  import opened Values
  import opened Transactions
  import opened HakoClaims
  import opened HakoDriver

  // ---------- What the shadow index says ----------

  /** Document `id` of collection `c` has key `k` in field `f`. */
  predicate HasKey(text: Printer, v: Store, c: string, id: string, f: string, k: string) {
    (c, id) in v && KeyAt(text, v[(c, id)], f) == Some(k)
  }

  /** Distinct (field, key) pairs get distinct shadow ids in every collection. */
  ghost predicate SidsDistinct(u: Uniques) {
    forall c :: c in u ==> DistinctSids(u[c])
  }

  /** The shadow entry of (field, key) holds an id exactly when that document has that key. */
  ghost predicate ShadowsExact(u: Uniques, text: Printer, v: Store) {
    forall c, f, k, id :: Declared(u, c, f) && !IsShadow(c) ==>
      (Holder(v, c, f, k) == Some(id) <==> HasKey(text, v, c, id, f, k))
  }

  /** No two documents share a value of a unique field. */
  ghost predicate NoDuplicates(u: Uniques, text: Printer, v: Store) {
    forall c, f, k, id, id' ::
      Declared(u, c, f) && !IsShadow(c) && HasKey(text, v, c, id, f, k) && HasKey(text, v, c, id', f, k) ==> id == id'
  }

  lemma ExactHasNoDuplicates(u: Uniques, text: Printer, v: Store)
    requires ShadowsExact(u, text, v)
    ensures NoDuplicates(u, text, v)
  {
    forall c, f, k, id, id' | Declared(u, c, f) && !IsShadow(c) && HasKey(text, v, c, id, f, k)
                              && HasKey(text, v, c, id', f, k)
      ensures id == id'
    {
      assert Holder(v, c, f, k) == Some(id) && Holder(v, c, f, k) == Some(id');
    }
  }

  // ---------- One operation ----------

  /** The view after the main write of an operation, before its claim. */
  function Written(v: Store, key: Key, next: Option<Doc>): Store {
    if next.Some? then v[key := next.value] else v - {key}
  }

  /** Some other document already has a key the new document wants. */
  ghost predicate Conflict(u: Uniques, text: Printer, v: Store, c: string, id: string, next: Option<Doc>) {
    exists f, k, other ::
      Declared(u, c, f) && HasPair(text, next, f, k) && other != id && HasKey(text, v, c, other, f, k)
  }

  /** A claim is refused exactly when another document has one of the keys. */
  lemma RefusedIffConflict(u: Uniques, text: Printer, v: Store, c: string, id: string, next: Option<Doc>)
    requires SidsDistinct(u) && !IsShadow(c) && ShadowsExact(u, text, v)
    ensures var r := Claim(u, text, Written(v, (c, id), next), c, id, Lookup(v, (c, id)), next);
            && (r.Err? <==> Conflict(u, text, v, c, id, next))
            && (r.Err? ==> r.error == AlreadyExists)
  {
    var fields, scol := FieldsOf(u, c), UniqCollection(c);
    if fields != [] {
      var prev := Lookup(v, (c, id));
      var w := Written(v, (c, id), next);
      var gone, keys := KeysOf(text, fields, prev), KeysOf(text, fields, next);
      var mid := Release(text, w, scol, gone, next);
      TakeFails(mid, scol, id, keys);
      TakenPair(mid, scol, id, keys);
      forall f, k | f in fields && HasPair(text, next, f, k)
        ensures (f, k) in keys && HolderIn(Lookup(mid, (scol, Sid(f, k)))) == Holder(v, c, f, k)
      {
        KeysOfExact(text, fields, next, f, k);
        ReleaseEffect(text, w, scol, gone, next, (scol, Sid(f, k)));
        PairsBySid(u, text, c, prev, next, f, k);
        assert |scol| > |c|;
      }
      if Taken(mid, scol, id, keys) {
        var p :| p in keys && OtherHolder(mid, scol, id, Sid(p.0, p.1));
        KeysOfExact(text, fields, next, p.0, p.1);
        var other := Holder(v, c, p.0, p.1).value;
        assert HasKey(text, v, c, other, p.0, p.1);
      }
      if Conflict(u, text, v, c, id, next) {
        var f, k, other :| f in fields && HasPair(text, next, f, k) && other != id && HasKey(text, v, c, other, f, k);
        assert Holder(v, c, f, k) == Some(other);
        assert OtherHolder(mid, scol, id, Sid(f, k));
        assert Taken(mid, scol, id, keys) by {
          var p := (f, k);
          assert p in keys && OtherHolder(mid, scol, id, Sid(p.0, p.1));
        }
      }
    }
  }

  /** A write followed by its claim keeps the shadow index exact. */
  lemma ClaimKeepsExact(u: Uniques, text: Printer, v: Store, c: string, id: string, next: Option<Doc>)
    requires SidsDistinct(u) && !IsShadow(c) && ShadowsExact(u, text, v)
    requires Claim(u, text, Written(v, (c, id), next), c, id, Lookup(v, (c, id)), next).Ok?
    ensures ShadowsExact(u, text, Claim(u, text, Written(v, (c, id), next), c, id, Lookup(v, (c, id)), next).value)
  {
    var prev, w := Lookup(v, (c, id)), Written(v, (c, id), next);
    var v' := Claim(u, text, w, c, id, prev, next).value;
    ClaimGranted(u, text, w, c, id, prev, next);
    RefusedIffConflict(u, text, v, c, id, next);
    forall c2, f, k, id2 | Declared(u, c2, f) && !IsShadow(c2)
      ensures Holder(v', c2, f, k) == Some(id2) <==> HasKey(text, v', c2, id2, f, k)
    {
      assert Lookup(v', (c2, id2)) == Lookup(w, (c2, id2));
      assert HasKey(text, v', c2, id2, f, k) <==> HasPair(text, Lookup(w, (c2, id2)), f, k);
      assert HasKey(text, v, c2, id2, f, k) <==> HasPair(text, Lookup(v, (c2, id2)), f, k);
      assert Holder(w, c2, f, k) == Holder(v, c2, f, k);
      assert Holder(v, c2, f, k) == Some(id2) <==> HasKey(text, v, c2, id2, f, k);
      if c2 == c {
        assert HasKey(text, v, c, id, f, k) <==> Holder(v, c, f, k) == Some(id);
      } else {
        assert UniqCollection(c2)[|UNIQ_PREFIX|..] == c2 && UniqCollection(c)[|UNIQ_PREFIX|..] == c;
      }
    }
  }

  // ---------- Batches and runs ----------

  /** Callers never name a shadow collection. */
  ghost predicate ClientOps(ops: seq<TxOp>) {
    forall op :: op in ops ==> !IsShadow(op.collection)
  }

  /** A put is refused with `AlreadyExists` exactly when it would duplicate a unique value. */
  lemma PutRefusedIffDuplicate(u: Uniques, text: Printer, v: Store, op: TxOp)
    requires SidsDistinct(u) && !IsShadow(op.collection) && ShadowsExact(u, text, v) && op.kind.Put?
    ensures var prev := Lookup(v, (op.collection, op.id));
            HakoStep(u, text, v, op) == Err(AlreadyExists) <==>
              (op.kind.mustExist ==> prev.Some?)
              && Conflict(u, text, v, op.collection, op.id, Some(PutDoc(op, prev)))
  {
    RefusedIffConflict(u, text, v, op.collection, op.id, Some(PutDoc(op, Lookup(v, (op.collection, op.id)))));
  }

  lemma StepKeepsExact(u: Uniques, text: Printer, v: Store, op: TxOp)
    requires SidsDistinct(u) && !IsShadow(op.collection) && ShadowsExact(u, text, v)
    requires HakoStep(u, text, v, op).Ok?
    ensures ShadowsExact(u, text, HakoStep(u, text, v, op).value.0)
  {
    var prev := Lookup(v, (op.collection, op.id));
    match op.kind
    case Read =>
    case Put(_, _) => ClaimKeepsExact(u, text, v, op.collection, op.id, Some(PutDoc(op, prev)));
    case Delete => ClaimKeepsExact(u, text, v, op.collection, op.id, None);
  }

  lemma {:induction false} BatchKeepsExact(u: Uniques, text: Printer, v: Store, outs: seq<TxOut>, ops: seq<TxOp>)
    requires SidsDistinct(u) && ClientOps(ops) && ShadowsExact(u, text, v)
    requires HakoRun(u, text, v, outs, ops).Ok?
    ensures ShadowsExact(u, text, HakoRun(u, text, v, outs, ops).value.store)
    decreases |ops|
  {
    if ops != [] {
      StepKeepsExact(u, text, v, ops[0]);
      var (v', o) := HakoStep(u, text, v, ops[0]).value;
      BatchKeepsExact(u, text, v', outs + [o], ops[1..]);
    }
  }

  /** A batch and the engine's answer to its commit. Sets and deletes are batches of one. */
  datatype Batch = Batch(ops: seq<TxOp>, commitOk: bool)

  /** The committed state after a run of batches on an empty driver. */
  function Reached(u: Uniques, text: Printer, batches: seq<Batch>): Store {
    if batches == [] then map[]
    else
      var last := batches[|batches| - 1];
      HakoNext(u, text, Reached(u, text, batches[..|batches| - 1]), last.ops, last.commitOk)
  }

  /** In every committed state the shadow index is exact, so no unique value is held twice. */
  lemma {:induction false} EveryCommittedStateIsExact(u: Uniques, text: Printer, batches: seq<Batch>)
    requires SidsDistinct(u) && forall b :: b in batches ==> ClientOps(b.ops)
    ensures ShadowsExact(u, text, Reached(u, text, batches))
    ensures NoDuplicates(u, text, Reached(u, text, batches))
  {
    if batches != [] {
      var before := Reached(u, text, batches[..|batches| - 1]);
      var last := batches[|batches| - 1];
      EveryCommittedStateIsExact(u, text, batches[..|batches| - 1]);
      if HakoRun(u, text, before, [], last.ops).Ok? && last.commitOk {
        BatchKeepsExact(u, text, before, [], last.ops);
      }
    }
    ExactHasNoDuplicates(u, text, Reached(u, text, batches));
  }

  /** So in every committed state two documents with one non-null value in a unique field are one document. */
  lemma NoSharedValue(u: Uniques, text: Printer, batches: seq<Batch>, c: string, f: string, a: string, b: string)
    requires SidsDistinct(u) && (forall x :: x in batches ==> ClientOps(x.ops)) && Declared(u, c, f) && !IsShadow(c)
    requires var v := Reached(u, text, batches);
             && (c, a) in v && (c, b) in v && f in v[(c, a)].data && f in v[(c, b)].data
             && v[(c, a)].data[f] == v[(c, b)].data[f] && v[(c, a)].data[f] != Null
    ensures a == b
  {
    var v := Reached(u, text, batches);
    EveryCommittedStateIsExact(u, text, batches);
    KeysTellValuesApart(text, v[(c, a)].data[f], v[(c, b)].data[f]);
    var k := UniqKey(text, v[(c, a)].data[f]).value;
    assert HasKey(text, v, c, a, f, k) && HasKey(text, v, c, b, f, k);
  }

  // ---------- Against the reference driver ----------

  /** The two states hold the same client documents. */
  ghost predicate SameDocs(v: Store, w: Store) {
    forall k: Key :: !IsShadow(k.0) ==> Lookup(v, k) == Lookup(w, k)
  }

  lemma StepRefines(u: Uniques, text: Printer, v: Store, w: Store, op: TxOp)
    requires SidsDistinct(u) && !IsShadow(op.collection) && SameDocs(v, w)
    ensures match HakoStep(u, text, v, op)
            case Err(AlreadyExists) => op.kind.Put? && (op.kind.mustExist ==> Lookup(w, (op.collection, op.id)).Some?)
            case Err(e) => Step(w, op) == Err(e)
            case Ok((v', o)) => Step(w, op).Ok? && Step(w, op).value.1 == o && SameDocs(v', Step(w, op).value.0)
  {
    var c, id := op.collection, op.id;
    var prev := Lookup(v, (c, id));
    assert prev == Lookup(w, (c, id));
    if !op.kind.Read? {
      var next := if op.kind.Put? then Some(PutDoc(op, prev)) else None;
      var before := Written(v, (c, id), next);
      var claim := Claim(u, text, before, c, id, prev, next);
      if claim.Ok? {
        ClaimGranted(u, text, before, c, id, prev, next);
        assert IsShadow(UniqCollection(c));
        forall k: Key | !IsShadow(k.0) ensures Lookup(claim.value, k) == Lookup(Written(w, (c, id), next), k) {
          assert Lookup(v, k) == Lookup(w, k);
        }
      } else if FieldsOf(u, c) != [] {
        TakeFails(Release(text, before, UniqCollection(c), KeysOf(text, FieldsOf(u, c), prev), next),
                  UniqCollection(c), id, KeysOf(text, FieldsOf(u, c), next));
      }
    }
  }

  /** Run by the reference driver, the batch reaches a put that would duplicate a unique value. */
  ghost predicate Duplicates(u: Uniques, text: Printer, w: Store, ops: seq<TxOp>)
    decreases |ops|
  {
    && ops != []
    && Step(w, ops[0]).Ok?
    && ((ops[0].kind.Put?
         && Conflict(u, text, w, ops[0].collection, ops[0].id,
                     Some(PutDoc(ops[0], Lookup(w, (ops[0].collection, ops[0].id))))))
        || Duplicates(u, text, Step(w, ops[0]).value.0, ops[1..]))
  }

  lemma SameConflicts(u: Uniques, text: Printer, v: Store, w: Store, c: string, id: string, next: Option<Doc>)
    requires SameDocs(v, w) && !IsShadow(c)
    ensures Conflict(u, text, v, c, id, next) <==> Conflict(u, text, w, c, id, next)
  {
    forall other, f, k ensures HasKey(text, v, c, other, f, k) <==> HasKey(text, w, c, other, f, k) {
      assert Lookup(v, (c, other)) == Lookup(w, (c, other));
    }
  }

  /** A batch is refused exactly when the reference run would duplicate a unique value; otherwise it does to
      the client documents what the reference does: same results, same abort, same final documents. */
  lemma {:induction false} BatchRefines(u: Uniques, text: Printer, v: Store, w: Store, outs: seq<TxOut>, ops: seq<TxOp>)
    requires SidsDistinct(u) && ClientOps(ops) && SameDocs(v, w) && ShadowsExact(u, text, v)
    ensures HakoRun(u, text, v, outs, ops) == Err(AlreadyExists) <==> Duplicates(u, text, w, ops)
    ensures match HakoRun(u, text, v, outs, ops)
            case Err(AlreadyExists) => true
            case Err(e) => Run(w, outs, ops) == Err(e)
            case Ok(a) => Run(w, outs, ops).Ok? && Run(w, outs, ops).value.outs == a.outs
                          && SameDocs(a.store, Run(w, outs, ops).value.store)
    decreases |ops|
  {
    if ops != [] {
      var op := ops[0];
      StepRefines(u, text, v, w, op);
      assert Lookup(v, (op.collection, op.id)) == Lookup(w, (op.collection, op.id));
      if op.kind.Put? {
        PutRefusedIffDuplicate(u, text, v, op);
        SameConflicts(u, text, v, w, op.collection, op.id, Some(PutDoc(op, Lookup(w, (op.collection, op.id)))));
      }
      if HakoStep(u, text, v, op).Ok? {
        var (v', o) := HakoStep(u, text, v, op).value;
        StepKeepsExact(u, text, v, op);
        BatchRefines(u, text, v', Step(w, op).value.0, outs + [o], ops[1..]);
      }
    }
  }

  /** On collections without unique fields the staged overlay is scratch-and-swap exactly. */
  lemma {:induction false} PlainBatchIsReference(u: Uniques, text: Printer, v: Store, outs: seq<TxOut>, ops: seq<TxOp>)
    requires forall op :: op in ops ==> op.collection !in u || u[op.collection] == []
    ensures HakoRun(u, text, v, outs, ops) == Run(v, outs, ops)
    decreases |ops|
  {
    if ops != [] && Step(v, ops[0]).Ok? {
      var (v', o) := Step(v, ops[0]).value;
      PlainBatchIsReference(u, text, v', outs + [o], ops[1..]);
    }
  }
}
