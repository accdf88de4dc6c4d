/** Unique values of the hako driver: the keys a document claims, and how a batch operation claims them. */
module HakoClaims {
  import opened Values
  import opened Transactions

  // ---------- Names ----------

  const UNIQ_PREFIX := "__uniq_"

  function UniqCollection(c: string): string { UNIQ_PREFIX + c }

  predicate IsShadow(c: string) {
    UNIQ_PREFIX <= c
  }

  function Sid(f: string, k: string): string { f + "\0" + k }

  /** The text a number or a tree prints as is left to the caller: any printer will do. */
  type Printer = Json -> string

  /** Canonical key of a unique value; a null has none. */
  function UniqKey(text: Printer, v: Json): Option<string> {
    match v
    case Null => None
    case Bool(_) => Some("b:" + text(v))
    case Num(_) => Some("n:" + text(v))
    case Str(s) => Some("s:" + s)
    case _ => Some("j:" + text(v))
  }

  function KeyAt(text: Printer, d: Doc, f: string): Option<string> {
    if f in d.data then UniqKey(text, d.data[f]) else None
  }

  /** The (field, key) pairs a document occupies, in field order. */
  function KeysOf(text: Printer, fields: seq<string>, d: Option<Doc>): seq<(string, string)> {
    if fields == [] || d.None? then []
    else
      var k := KeyAt(text, d.value, fields[0]);
      (if k.Some? then [(fields[0], k.value)] else []) + KeysOf(text, fields[1..], d)
  }

  lemma {:induction false} KeysOfExact(text: Printer, fields: seq<string>, d: Option<Doc>, f: string, k: string)
    ensures (f, k) in KeysOf(text, fields, d) <==> f in fields && d.Some? && KeyAt(text, d.value, f) == Some(k)
    decreases |fields|
  {
    if fields != [] && d.Some? {
      KeysOfExact(text, fields[1..], d, f, k);
      assert f in fields <==> f == fields[0] || f in fields[1..];
    }
  }

  // ---------- Claiming unique values ----------

  type Uniques = map<string, seq<string>>

  function FieldsOf(u: Uniques, c: string): seq<string> {
    if c in u then u[c] else []
  }

  /** The field is declared unique in the collection. */
  predicate Declared(u: Uniques, c: string, f: string) {
    c in u && f in u[c]
  }

  function ShadowDoc(sid: string, holder: string): Doc {
    Doc(sid, map["holder" := Str(holder)])
  }

  function HolderIn(d: Option<Doc>): Option<string> {
    if d.Some? && "holder" in d.value.data && d.value.data["holder"].Str?
    then Some(d.value.data["holder"].s) else None
  }

  function Keeps(text: Printer, next: Option<Doc>, p: (string, string)): bool {
    next.Some? && KeyAt(text, next.value, p.0) == Some(p.1)
  }

  /** Unlink the old keys that the new document does not keep. */
  function Release(text: Printer, v: Store, scol: string, keys: seq<(string, string)>, next: Option<Doc>): Store
    decreases |keys|
  {
    if keys == [] then v
    else
      var v' := if Keeps(text, next, keys[0]) then v else v - {(scol, Sid(keys[0].0, keys[0].1))};
      Release(text, v', scol, keys[1..], next)
  }

  /** Link the new keys, refusing one that another document holds. */
  function Take(v: Store, scol: string, id: string, keys: seq<(string, string)>): Result<Store, AppError>
    decreases |keys|
  {
    if keys == [] then Ok(v)
    else
      var sid := Sid(keys[0].0, keys[0].1);
      var holder := HolderIn(Lookup(v, (scol, sid)));
      if holder.Some? && holder.value != id then Err(AlreadyExists)
      else Take(v[(scol, sid) := ShadowDoc(sid, id)], scol, id, keys[1..])
  }

  function Claim(u: Uniques, text: Printer, v: Store, c: string, id: string, prev: Option<Doc>, next: Option<Doc>)
    : Result<Store, AppError>
  {
    var fields := FieldsOf(u, c);
    if fields == [] then Ok(v)
    else
      var scol := UniqCollection(c);
      Take(Release(text, v, scol, KeysOf(text, fields, prev), next), scol, id, KeysOf(text, fields, next))
  }

  /** One operation as the driver sees it: on the committed state under the staged writes. */
  function HakoStep(u: Uniques, text: Printer, v: Store, op: TxOp): Result<(Store, TxOut), AppError> {
    var key := (op.collection, op.id);
    var prev := Lookup(v, key);
    match op.kind
    case Read => Ok((v, TxOut(prev, prev.Some?)))
    case Put(_, mustExist) =>
      if mustExist && prev.None? then Err(NotFound)
      else
        var doc := PutDoc(op, prev);
        (match Claim(u, text, v[key := doc], op.collection, op.id, prev, Some(doc))
         case Err(e) => Err(e)
         case Ok(v') => Ok((v', TxOut(Some(doc), prev.Some?))))
    case Delete =>
      (match Claim(u, text, v - {key}, op.collection, op.id, prev, None)
       case Err(e) => Err(e)
       case Ok(v') => Ok((v', TxOut(prev, prev.Some?))))
  }

  function HakoRun(u: Uniques, text: Printer, v: Store, outs: seq<TxOut>, ops: seq<TxOp>): Result<Applied, AppError>
    decreases |ops|
  {
    if ops == [] then Ok(Applied(v, outs))
    else
      match HakoStep(u, text, v, ops[0])
      case Err(e) => Err(e)
      case Ok((v', o)) => HakoRun(u, text, v', outs + [o], ops[1..])
  }

  // ---------- Keys and shadow ids ----------

  /** A value has no key exactly when it is null, and where the printer tells values apart so do the keys. */
  lemma KeysTellValuesApart(text: Printer, a: Json, b: Json)
    ensures UniqKey(text, a).None? <==> a.Null?
    ensures UniqKey(text, a).Some? && UniqKey(text, a) == UniqKey(text, b) && (text(a) == text(b) ==> a == b) ==> a == b
  {
    if UniqKey(text, a).Some? && UniqKey(text, a) == UniqKey(text, b) {
      var k, l := UniqKey(text, a).value, UniqKey(text, b).value;
      assert k[0] == l[0] && k[2..] == l[2..];
      assert !a.Str? ==> k[2..] == text(a);
      assert !b.Str? ==> l[2..] == text(b);
      assert a.Str? ==> k[2..] == a.s;
      assert b.Str? ==> l[2..] == b.s;
    }
  }

  /** Distinct (field, key) pairs get distinct shadow ids. */
  ghost predicate DistinctSids(fields: seq<string>) {
    forall f, f', k, k' :: f in fields && f' in fields && Sid(f, k) == Sid(f', k') ==> f == f' && k == k'
  }

  /** True of every declaration `create_index` stores (one field), and of NUL-free names. */
  lemma DeclaredSidsDistinct(fields: seq<string>)
    requires |fields| == 1 || forall f :: f in fields ==> '\0' !in f
    ensures DistinctSids(fields)
  {
    forall f, f', k, k' | f in fields && f' in fields && Sid(f, k) == Sid(f', k')
      ensures f == f' && k == k'
    {
      var s := Sid(f, k);
      assert s[|f|] == '\0' && s[|f'|] == '\0';
      assert forall i :: 0 <= i < |f| ==> s[i] == f[i];
      assert forall i :: 0 <= i < |f'| ==> s[i] == f'[i];
      if |f| == |f'| {
        assert f == s[..|f|] == f';
        assert k == s[|f| + 1..] == k';
      } else if |f| < |f'| {
        assert false;
      } else {
        assert false;
      }
    }
  }

  // ---------- Release and Take, entry by entry ----------

  /** Some pair of the list has this shadow id. */
  predicate Named(keys: seq<(string, string)>, sid: string) {
    keys != [] && (Sid(keys[0].0, keys[0].1) == sid || Named(keys[1..], sid))
  }

  /** Some pair of the list has this shadow id and is not kept by the new document. */
  predicate Dropped(text: Printer, keys: seq<(string, string)>, next: Option<Doc>, sid: string) {
    keys != [] &&
    ((Sid(keys[0].0, keys[0].1) == sid && !Keeps(text, next, keys[0])) || Dropped(text, keys[1..], next, sid))
  }

  /** Some pair of the list is linked to a document other than `id`. */
  predicate Taken(v: Store, scol: string, id: string, keys: seq<(string, string)>) {
    keys != [] &&
    (OtherHolder(v, scol, id, Sid(keys[0].0, keys[0].1)) || Taken(v, scol, id, keys[1..]))
  }

  predicate OtherHolder(v: Store, scol: string, id: string, sid: string) {
    var h := HolderIn(Lookup(v, (scol, sid)));
    h.Some? && h.value != id
  }

  lemma {:induction false} NamedPair(keys: seq<(string, string)>, sid: string)
    ensures Named(keys, sid) <==> exists p :: p in keys && Sid(p.0, p.1) == sid
  {
    if keys != [] {
      NamedPair(keys[1..], sid);
      assert forall p :: p in keys <==> p == keys[0] || p in keys[1..];
    }
  }

  lemma {:induction false} DroppedPair(text: Printer, keys: seq<(string, string)>, next: Option<Doc>, sid: string)
    ensures Dropped(text, keys, next, sid) <==> exists p :: p in keys && Sid(p.0, p.1) == sid && !Keeps(text, next, p)
  {
    if keys != [] {
      DroppedPair(text, keys[1..], next, sid);
      assert forall p :: p in keys <==> p == keys[0] || p in keys[1..];
    }
  }

  lemma {:induction false} TakenPair(v: Store, scol: string, id: string, keys: seq<(string, string)>)
    ensures Taken(v, scol, id, keys) <==> exists p :: p in keys && OtherHolder(v, scol, id, Sid(p.0, p.1))
  {
    if keys != [] {
      TakenPair(v, scol, id, keys[1..]);
      assert forall p :: p in keys <==> p == keys[0] || p in keys[1..];
    }
  }

  lemma {:induction false} ReleaseEffect(text: Printer, v: Store, scol: string, keys: seq<(string, string)>,
                                         next: Option<Doc>, q: Key)
    ensures Lookup(Release(text, v, scol, keys, next), q) ==
            if q.0 == scol && Dropped(text, keys, next, q.1) then None else Lookup(v, q)
    decreases |keys|
  {
    if keys != [] {
      var v' := if Keeps(text, next, keys[0]) then v else v - {(scol, Sid(keys[0].0, keys[0].1))};
      ReleaseEffect(text, v', scol, keys[1..], next, q);
    }
  }

  /** Linking a free or own key neither creates nor hides a conflict among the rest. */
  lemma {:induction false} TakenAfterLink(v: Store, scol: string, id: string, sid: string, keys: seq<(string, string)>)
    requires !OtherHolder(v, scol, id, sid)
    ensures Taken(v[(scol, sid) := ShadowDoc(sid, id)], scol, id, keys) == Taken(v, scol, id, keys)
  {
    if keys != [] {
      TakenAfterLink(v, scol, id, sid, keys[1..]);
    }
  }

  lemma {:induction false} TakeFails(v: Store, scol: string, id: string, keys: seq<(string, string)>)
    ensures Take(v, scol, id, keys).Err? <==> Taken(v, scol, id, keys)
    ensures Take(v, scol, id, keys).Err? ==> Take(v, scol, id, keys).error == AlreadyExists
    decreases |keys|
  {
    if keys != [] {
      var sid := Sid(keys[0].0, keys[0].1);
      if !OtherHolder(v, scol, id, sid) {
        TakenAfterLink(v, scol, id, sid, keys[1..]);
        TakeFails(v[(scol, sid) := ShadowDoc(sid, id)], scol, id, keys[1..]);
      }
    }
  }

  lemma {:induction false} TakeEffect(v: Store, scol: string, id: string, keys: seq<(string, string)>, q: Key)
    requires Take(v, scol, id, keys).Ok?
    ensures Lookup(Take(v, scol, id, keys).value, q) ==
            if q.0 == scol && Named(keys, q.1) then Some(ShadowDoc(q.1, id)) else Lookup(v, q)
    decreases |keys|
  {
    if keys != [] {
      var sid := Sid(keys[0].0, keys[0].1);
      TakeEffect(v[(scol, sid) := ShadowDoc(sid, id)], scol, id, keys[1..], q);
    }
  }

  // ---------- What an operation leaves ----------

  function Holder(v: Store, c: string, f: string, k: string): Option<string> {
    HolderIn(Lookup(v, (UniqCollection(c), Sid(f, k))))
  }

  predicate HasPair(text: Printer, d: Option<Doc>, f: string, k: string) {
    d.Some? && KeyAt(text, d.value, f) == Some(k)
  }

  lemma PairsBySid(u: Uniques, text: Printer, c: string, d: Option<Doc>, next: Option<Doc>, f: string, k: string)
    requires DistinctSids(FieldsOf(u, c)) && f in FieldsOf(u, c)
    ensures Named(KeysOf(text, FieldsOf(u, c), d), Sid(f, k)) <==> HasPair(text, d, f, k)
    ensures Dropped(text, KeysOf(text, FieldsOf(u, c), d), next, Sid(f, k)) <==>
            HasPair(text, d, f, k) && !HasPair(text, next, f, k)
  {
    var fields := FieldsOf(u, c);
    var keys := KeysOf(text, fields, d);
    NamedPair(keys, Sid(f, k));
    DroppedPair(text, keys, next, Sid(f, k));
    KeysOfExact(text, fields, d, f, k);
    forall p | p in keys && Sid(p.0, p.1) == Sid(f, k) ensures p == (f, k) {
      KeysOfExact(text, fields, d, p.0, p.1);
    }
  }

  /** A claim touches its own shadow collection only. */
  lemma ClaimElsewhere(u: Uniques, text: Printer, v: Store, c: string, id: string, prev: Option<Doc>, next: Option<Doc>)
    requires Claim(u, text, v, c, id, prev, next).Ok?
    ensures forall q: Key :: q.0 != UniqCollection(c) ==>
              Lookup(Claim(u, text, v, c, id, prev, next).value, q) == Lookup(v, q)
  {
    var fields, scol := FieldsOf(u, c), UniqCollection(c);
    if fields != [] {
      var gone, keys := KeysOf(text, fields, prev), KeysOf(text, fields, next);
      forall q: Key | q.0 != scol ensures Lookup(Claim(u, text, v, c, id, prev, next).value, q) == Lookup(v, q) {
        ReleaseEffect(text, v, scol, gone, next, q);
        TakeEffect(Release(text, v, scol, gone, next), scol, id, keys, q);
      }
    }
  }

  /** What a granted claim leaves in the shadow collection and everywhere else. */
  lemma ClaimGranted(u: Uniques, text: Printer, v: Store, c: string, id: string, prev: Option<Doc>, next: Option<Doc>)
    requires DistinctSids(FieldsOf(u, c)) && Claim(u, text, v, c, id, prev, next).Ok?
    ensures var v' := Claim(u, text, v, c, id, prev, next).value;
            && (forall q: Key :: q.0 != UniqCollection(c) ==> Lookup(v', q) == Lookup(v, q))
            && forall f, k :: Declared(u, c, f) ==>
                 Holder(v', c, f, k) == if HasPair(text, next, f, k) then Some(id)
                                        else if HasPair(text, prev, f, k) then None
                                        else Holder(v, c, f, k)
  {
    var fields, scol := FieldsOf(u, c), UniqCollection(c);
    ClaimElsewhere(u, text, v, c, id, prev, next);
    if fields != [] {
      var v' := Claim(u, text, v, c, id, prev, next).value;
      var gone, keys := KeysOf(text, fields, prev), KeysOf(text, fields, next);
      var mid := Release(text, v, scol, gone, next);
      forall f, k | f in fields
        ensures Holder(v', c, f, k) == if HasPair(text, next, f, k) then Some(id)
                                       else if HasPair(text, prev, f, k) then None else Holder(v, c, f, k)
      {
        ReleaseEffect(text, v, scol, gone, next, (scol, Sid(f, k)));
        TakeEffect(mid, scol, id, keys, (scol, Sid(f, k)));
        PairsBySid(u, text, c, prev, next, f, k);
        PairsBySid(u, text, c, next, next, f, k);
      }
    }
  }

  /** All other documents are as before, in every collection but this one's shadow. */
  ghost predicate SameElsewhere(v: Store, v': Store, c: string, id: string) {
    forall q: Key :: q != (c, id) && q.0 != "__uniq_" + c ==> Lookup(v', q) == Lookup(v, q)
  }

  /** The keys of `next` are held by the document, the keys it dropped by nobody, all others as before. */
  ghost predicate Relinked(u: Uniques, text: Printer, v: Store, v': Store, c: string, id: string, next: Option<Doc>) {
    forall f, k :: Declared(u, c, f) ==>
      Holder(v', c, f, k) == if HasPair(text, next, f, k) then Some(id)
                             else if HasPair(text, Lookup(v, (c, id)), f, k) then None
                             else Holder(v, c, f, k)
  }

  /** What a put or a delete leaves, document by document and key by key. */
  lemma StepEffect(u: Uniques, text: Printer, v: Store, op: TxOp)
    requires !op.kind.Read? && HakoStep(u, text, v, op).Ok?
    ensures var prev := Lookup(v, (op.collection, op.id));
            var next := if op.kind.Put? then Some(PutDoc(op, prev)) else None;
            var (v', out) := HakoStep(u, text, v, op).value;
            && Lookup(v', (op.collection, op.id)) == next && SameElsewhere(v, v', op.collection, op.id)
            && (DistinctSids(FieldsOf(u, op.collection)) ==> Relinked(u, text, v, v', op.collection, op.id, next))
            && out == TxOut(if op.kind.Put? then next else prev, prev.Some?)
  {
    var c, id := op.collection, op.id;
    var prev := Lookup(v, (c, id));
    var next := if op.kind.Put? then Some(PutDoc(op, prev)) else None;
    var w := if next.Some? then v[(c, id) := next.value] else v - {(c, id)};
    assert |UniqCollection(c)| > |c|;
    ClaimElsewhere(u, text, w, c, id, prev, next);
    if DistinctSids(FieldsOf(u, c)) {
      ClaimGranted(u, text, w, c, id, prev, next);
    }
  }
}
