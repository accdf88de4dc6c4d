/** Field-value atomics: sentinels, dot paths, and the two ways a body is resolved. */
module Atomics {
  import opened Values
  import opened Text

  const TYPE_KEY := "__type__"

  // ---------- Sentinels ----------

  function OpOf(v: Json): Option<string> {
    if v.Obj? && TYPE_KEY in v.fields && v.fields[TYPE_KEY].Str? then Some(v.fields[TYPE_KEY].s) else None
  }

  predicate HasSentinel(v: Json) {
    match v
    case Arr(items) => exists i :: 0 <= i < |items| && HasSentinel(items[i])
    case Obj(fields) => OpOf(v).Some? || exists k :: k in fields && HasSentinel(fields[k])
    case _ => false
  }

  function FieldOr(fields: map<string, Json>, k: string, d: Json): Json {
    if k in fields then fields[k] else d
  }

  /** Collapse sentinels inside a value; None drops the value. */
  function ResolveDeep(v: Json, ts: string): Option<Json> {
    match v
    case Arr(items) => Some(Arr(ResolveItems(items, ts)))
    case Obj(fields) =>
      (match OpOf(v)
       case Some("serverTimestamp") => Some(Str(ts))
       case Some("increment") => Some(FieldOr(fields, "n", Num(0)))
       case Some("arrayUnion") => Some(FieldOr(fields, "elements", Arr([])))
       case Some("arrayRemove") => Some(Arr([]))
       case Some("deleteField") => None
       case _ => Some(Obj(map k | k in fields && ResolveDeep(fields[k], ts).Some? :: ResolveDeep(fields[k], ts).value)))
    case _ => Some(v)
  }

  function ResolveItems(items: seq<Json>, ts: string): seq<Json> {
    if items == [] then []
    else
      var r := ResolveDeep(items[0], ts);
      (if r.Some? then [r.value] else []) + ResolveItems(items[1..], ts)
  }

  /** Resolving changes nothing in a tree without sentinels. */
  lemma {:induction false} ResolveDeepIdentity(v: Json, ts: string)
    requires !HasSentinel(v)
    ensures ResolveDeep(v, ts) == Some(v)
  {
    match v
    case Arr(items) => ResolveItemsIdentity(items, ts);
    case Obj(fields) =>
      forall k | k in fields ensures ResolveDeep(fields[k], ts) == Some(fields[k]) {
        ResolveDeepIdentity(fields[k], ts);
      }
      assert (map k | k in fields && ResolveDeep(fields[k], ts).Some? :: ResolveDeep(fields[k], ts).value) == fields;
    case _ =>
  }

  lemma {:induction false} ResolveItemsIdentity(items: seq<Json>, ts: string)
    requires forall i :: 0 <= i < |items| ==> !HasSentinel(items[i])
    ensures ResolveItems(items, ts) == items
  {
    if items != [] {
      ResolveDeepIdentity(items[0], ts);
      ResolveItemsIdentity(items[1..], ts);
    }
  }

  /** The insert path: fast when no sentinel appears, else member by member. */
  function ResolveForCreate(data: Body, ts: string): Body {
    if !(exists k :: k in data && HasSentinel(data[k])) then data
    else ResolveMembers(data, ts)
  }

  /** A top-level sentinel resolves like a nested one; a dropped member disappears. */
  function ResolveMembers(data: Body, ts: string): Body {
    map k | k in data && ResolveDeep(data[k], ts).Some? :: ResolveDeep(data[k], ts).value
  }

  /** The fast path returns what the slow path would. */
  lemma CreateFastPath(data: Body, ts: string)
    ensures ResolveForCreate(data, ts) == ResolveMembers(data, ts)
  {
    if !(exists k :: k in data && HasSentinel(data[k])) {
      forall k | k in data ensures ResolveDeep(data[k], ts) == Some(data[k]) {
        ResolveDeepIdentity(data[k], ts);
      }
      assert ResolveMembers(data, ts) == data;
    }
  }

  // ---------- Paths into a tree ----------

  function GetPath(v: Json, path: seq<string>): Option<Json> {
    if path == [] then Some(v)
    else if v.Obj? && path[0] in v.fields then GetPath(v.fields[path[0]], path[1..])
    else None
  }

  function FieldsOf(v: Json): map<string, Json> {
    if v.Obj? then v.fields else map[]
  }

  /** The member to descend into: what is there if it is an object, else a new empty object. */
  function Child(fields: map<string, Json>, k: string): Json {
    if k in fields && fields[k].Obj? then fields[k] else Obj(map[])
  }

  /** Intermediate members that are not objects are replaced by objects. */
  function SetPath(v: Json, path: seq<string>, x: Json): Json
    requires path != []
    decreases |path|
  {
    if |path| == 1 then if v.Obj? then Obj(v.fields[path[0] := x]) else v
    else Obj(FieldsOf(v)[path[0] := SetPath(Child(FieldsOf(v), path[0]), path[1..], x)])
  }

  /** A path that leads nowhere deletes nothing. */
  function DeletePath(v: Json, path: seq<string>): Json
    requires path != []
  {
    if !v.Obj? then v
    else if |path| == 1 then Obj(v.fields - {path[0]})
    else if path[0] in v.fields then Obj(v.fields[path[0] := DeletePath(v.fields[path[0]], path[1..])])
    else v
  }

  /** Neither path leads through the other. */
  predicate Apart(p: seq<string>, q: seq<string>) {
    !(p <= q) && !(q <= p)
  }

  lemma {:induction false} SetThenGet(v: Json, p: seq<string>, x: Json, q: seq<string>)
    requires p != [] && v.Obj?
    ensures GetPath(SetPath(v, p, x), p) == Some(x)
    ensures Apart(p, q) ==> GetPath(SetPath(v, p, x), q) == GetPath(v, q)
    decreases |p|
  {
    if |p| > 1 {
      SetThenGet(Child(v.fields, p[0]), p[1..], x, if q == [] then [] else q[1..]);
    }
    if Apart(p, q) && |p| > 1 && p[0] == q[0] {
      ApartTails(p, q);
    }
  }

  lemma ApartTails(p: seq<string>, q: seq<string>)
    requires p != [] && q != [] && p[0] == q[0]
    ensures Apart(p, q) ==> |p| > 1 && |q| > 1 && Apart(p[1..], q[1..])
  {
    assert p == [p[0]] + p[1..] && q == [q[0]] + q[1..];
  }

  lemma {:induction false} DeleteThenGet(v: Json, p: seq<string>, q: seq<string>)
    requires p != [] && v.Obj?
    ensures GetPath(DeletePath(v, p), p) == None
    ensures Apart(p, q) ==> GetPath(DeletePath(v, p), q) == GetPath(v, q)
  {
    if |p| > 1 && p[0] in v.fields && v.fields[p[0]].Obj? {
      DeleteThenGet(v.fields[p[0]], p[1..], if q == [] then [] else q[1..]);
    }
    if Apart(p, q) && |p| > 1 && p[0] == q[0] {
      ApartTails(p, q);
    }
  }

  /** A path that reads nothing deletes nothing. */
  lemma {:induction false} DeleteNothing(v: Json, p: seq<string>)
    requires p != [] && GetPath(v, p) == None
    ensures DeletePath(v, p) == v
  {
    if |p| > 1 && v.Obj? && p[0] in v.fields {
      DeleteNothing(v.fields[p[0]], p[1..]);
      assert v.fields[p[0] := v.fields[p[0]]] == v.fields;
    } else if v.Obj? && |p| == 1 {
      assert p[1..] == [];
      assert v.fields - {p[0]} == v.fields;
    }
  }

  /** The new member a set puts under the head of its path. */
  function NewChild(fields: map<string, Json>, p: seq<string>, x: Json): Json
    requires p != []
  {
    if |p| == 1 then x else SetPath(Child(fields, p[0]), p[1..], x)
  }

  lemma SetAtHead(v: Json, p: seq<string>, x: Json)
    requires v.Obj? && p != []
    ensures SetPath(v, p, x) == Obj(v.fields[p[0] := NewChild(v.fields, p, x)])
    ensures |p| > 1 ==> NewChild(v.fields, p, x).Obj?
  {}

  lemma SetSetOtherHeads(v: Json, p: seq<string>, x: Json, q: seq<string>, y: Json)
    requires v.Obj? && p != [] && q != [] && p[0] != q[0]
    ensures SetPath(SetPath(v, p, x), q, y)
            == Obj(v.fields[p[0] := NewChild(v.fields, p, x)][q[0] := NewChild(v.fields, q, y)])
  {
    SetAtHead(v, p, x);
    var m := v.fields[p[0] := NewChild(v.fields, p, x)];
    SetAtHead(Obj(m), q, y);
    assert Child(m, q[0]) == Child(v.fields, q[0]);
  }

  lemma SetSetSameHead(v: Json, p: seq<string>, x: Json, q: seq<string>, y: Json)
    requires v.Obj? && |p| > 1 && |q| > 1 && p[0] == q[0]
    ensures SetPath(SetPath(v, p, x), q, y)
            == Obj(v.fields[p[0] := SetPath(SetPath(Child(v.fields, p[0]), p[1..], x), q[1..], y)])
  {
    SetAtHead(v, p, x);
    var c := NewChild(v.fields, p, x);
    SetAtHead(Obj(v.fields[p[0] := c]), q, y);
    assert v.fields[p[0] := c][p[0] := SetPath(c, q[1..], y)] == v.fields[p[0] := SetPath(c, q[1..], y)];
  }

  lemma SetSetOtherHeadsCommute(v: Json, p: seq<string>, x: Json, q: seq<string>, y: Json)
    requires v.Obj? && p != [] && q != [] && p[0] != q[0]
    ensures SetPath(SetPath(v, p, x), q, y) == SetPath(SetPath(v, q, y), p, x)
  {
    SetSetOtherHeads(v, p, x, q, y);
    SetSetOtherHeads(v, q, y, p, x);
    var a, b := NewChild(v.fields, p, x), NewChild(v.fields, q, y);
    assert v.fields[p[0] := a][q[0] := b] == v.fields[q[0] := b][p[0] := a];
  }

  lemma {:induction false} SetSetCommute(v: Json, p: seq<string>, x: Json, q: seq<string>, y: Json)
    requires v.Obj? && p != [] && q != [] && Apart(p, q)
    ensures SetPath(SetPath(v, p, x), q, y) == SetPath(SetPath(v, q, y), p, x)
    decreases |p|
  {
    if p[0] != q[0] {
      SetSetOtherHeadsCommute(v, p, x, q, y);
    } else {
      ApartTails(p, q);
      var c, tp, tq := Child(v.fields, p[0]), p[1..], q[1..];
      SetSetCommute(c, tp, x, tq, y);
      assert SetPath(SetPath(v, p, x), q, y) == Obj(v.fields[p[0] := SetPath(SetPath(c, tp, x), tq, y)]) by {
        SetSetSameHead(v, p, x, q, y);
      }
      assert SetPath(SetPath(v, q, y), p, x) == Obj(v.fields[p[0] := SetPath(SetPath(c, tq, y), tp, x)]) by {
        SetSetSameHead(v, q, y, p, x);
      }
    }
  }

  lemma DeleteAtHead(v: Json, q: seq<string>)
    requires v.Obj? && q != []
    ensures DeletePath(v, q) ==
            if |q| == 1 then Obj(v.fields - {q[0]})
            else if q[0] in v.fields then Obj(v.fields[q[0] := DeletePath(v.fields[q[0]], q[1..])])
            else v
  {}

  lemma SetDeleteOtherHeads(v: Json, p: seq<string>, x: Json, q: seq<string>)
    requires v.Obj? && p != [] && q != [] && p[0] != q[0]
    ensures DeletePath(SetPath(v, p, x), q) == SetPath(DeletePath(v, q), p, x)
  {
    var m, c := v.fields, NewChild(v.fields, p, x);
    SetAtHead(v, p, x);
    DeleteAtHead(v, q);
    DeleteAtHead(Obj(m[p[0] := c]), q);
    var vq := DeletePath(v, q);
    SetAtHead(vq, p, x);
    assert Child(vq.fields, p[0]) == Child(m, p[0]);
    assert DeletePath(Obj(m[p[0] := c]), q).fields == vq.fields[p[0] := c];
  }

  lemma DeleteAfterSetSameHead(v: Json, p: seq<string>, x: Json, q: seq<string>)
    requires v.Obj? && |p| > 1 && |q| > 1 && p[0] == q[0]
    ensures DeletePath(SetPath(v, p, x), q)
            == Obj(v.fields[p[0] := DeletePath(SetPath(Child(v.fields, p[0]), p[1..], x), q[1..])])
  {
    var m, c := v.fields, NewChild(v.fields, p, x);
    SetAtHead(v, p, x);
    DeleteAtHead(Obj(m[p[0] := c]), q);
    assert m[p[0] := c][p[0] := DeletePath(c, q[1..])] == m[p[0] := DeletePath(c, q[1..])];
  }

  lemma SetAfterDeleteSameHead(v: Json, p: seq<string>, x: Json, q: seq<string>)
    requires v.Obj? && |p| > 1 && |q| > 1 && p[0] == q[0]
    ensures SetPath(DeletePath(v, q), p, x)
            == Obj(v.fields[p[0] := SetPath(DeletePath(Child(v.fields, p[0]), q[1..]), p[1..], x)])
  {
    var m, h := v.fields, p[0];
    var vq, c := DeletePath(v, q), Child(m, h);
    DeleteAtHead(v, q);
    DeleteAtHead(Obj(map[]), q[1..]);
    assert Child(vq.fields, h) == DeletePath(c, q[1..]);
    SetAtHead(vq, p, x);
    var d := SetPath(DeletePath(c, q[1..]), p[1..], x);
    assert vq.fields[h := d] == m[h := d];
  }

  lemma {:induction false} SetDeleteCommute(v: Json, p: seq<string>, x: Json, q: seq<string>)
    requires v.Obj? && p != [] && q != [] && Apart(p, q)
    ensures DeletePath(SetPath(v, p, x), q) == SetPath(DeletePath(v, q), p, x)
    decreases |p|
  {
    if p[0] != q[0] {
      SetDeleteOtherHeads(v, p, x, q);
    } else {
      ApartTails(p, q);
      SetDeleteCommute(Child(v.fields, p[0]), p[1..], x, q[1..]);
      DeleteAfterSetSameHead(v, p, x, q);
      SetAfterDeleteSameHead(v, p, x, q);
    }
  }

  lemma {:induction false} DeleteDeleteCommute(v: Json, p: seq<string>, q: seq<string>)
    requires p != [] && q != [] && Apart(p, q)
    ensures DeletePath(DeletePath(v, p), q) == DeletePath(DeletePath(v, q), p)
  {
    if v.Obj? && p[0] == q[0] {
      ApartTails(p, q);
      if p[0] in v.fields {
        DeleteDeleteCommute(v.fields[p[0]], p[1..], q[1..]);
      }
    }
  }

  // ---------- Updates ----------

  function AsInt(v: Option<Json>): int {
    if v.Some? && v.value.Num? then v.value.n else 0
  }

  function AsArray(v: Option<Json>): seq<Json> {
    if v.Some? && v.value.Arr? then v.value.items else []
  }

  function Member(fields: map<string, Json>, k: string): Option<Json> {
    if k in fields then Some(fields[k]) else None
  }

  function AddMissing(have: seq<Json>, els: seq<Json>): seq<Json> {
    if els == [] then []
    else (if els[0] in have then [] else [els[0]]) + AddMissing(have, els[1..])
  }

  function Union(have: seq<Json>, els: seq<Json>): seq<Json> { have + AddMissing(have, els) }

  function Without(items: seq<Json>, gone: seq<Json>): seq<Json> {
    if items == [] then []
    else (if items[0] in gone then [] else [items[0]]) + Without(items[1..], gone)
  }

  datatype Edit = Put(x: Json) | Remove | Keep

  /** What one update value does at its path, given what is there now. */
  function EditOf(cur: Option<Json>, value: Json, ts: string): Edit {
    match OpOf(value)
    case Some("serverTimestamp") => Put(Str(ts))
    case Some("increment") => Put(Num(AsInt(cur) + AsInt(Member(value.fields, "n"))))
    case Some("arrayUnion") => Put(Arr(Union(AsArray(cur), AsArray(Member(value.fields, "elements")))))
    case Some("arrayRemove") => Put(Arr(Without(AsArray(cur), AsArray(Member(value.fields, "elements")))))
    case Some("deleteField") => Remove
    case _ =>
      if !HasSentinel(value) then Put(value)
      else
        var r := ResolveDeep(value, ts);
        if r.Some? then Put(r.value) else Keep
  }

  function ApplyEdit(root: Json, path: seq<string>, e: Edit): Json
    requires path != []
  {
    match e
    case Put(x) => SetPath(root, path, x)
    case Remove => DeletePath(root, path)
    case Keep => root
  }

  function ApplyOne(root: Json, path: string, value: Json, ts: string): Json {
    var parts := Split(path, '.');
    ApplyEdit(root, parts, EditOf(GetPath(root, parts), value, ts))
  }

  /** All updates, in the given walk of the update map. */
  function ApplyAll(root: Json, updates: Body, order: seq<string>, ts: string): Json
    requires forall k :: k in order ==> k in updates
  {
    if order == [] then root
    else
      var last := order[|order| - 1];
      ApplyOne(ApplyAll(root, updates, order[..|order| - 1], ts), last, updates[last], ts)
  }

  /** The plain fast path writes what the resolving path would. */
  lemma UpdateFastPath(cur: Option<Json>, value: Json, ts: string)
    requires OpOf(value).None? && !HasSentinel(value)
    ensures ResolveDeep(value, ts) == Some(value) && EditOf(cur, value, ts) == Put(value)
  {
    ResolveDeepIdentity(value, ts);
  }

  // ---------- The walk over the update map does not matter ----------

  /** No dot path of the update runs through another. */
  ghost predicate PathsApart(keys: set<string>) {
    forall a, b :: a in keys && b in keys && a != b ==> Apart(Split(a, '.'), Split(b, '.'))
  }

  lemma EditCommute(v: Json, p: seq<string>, e: Edit, q: seq<string>, f: Edit)
    requires v.Obj? && p != [] && q != [] && Apart(p, q)
    ensures ApplyEdit(ApplyEdit(v, p, e), q, f) == ApplyEdit(ApplyEdit(v, q, f), p, e)
  {
    match (e, f)
    case (Put(x), Put(y)) => SetSetCommute(v, p, x, q, y);
    case (Put(x), Remove) => SetDeleteCommute(v, p, x, q);
    case (Remove, Put(y)) => SetDeleteCommute(v, q, y, p);
    case (Remove, Remove) => DeleteDeleteCommute(v, p, q);
    case _ =>
  }

  lemma EditThenGet(v: Json, p: seq<string>, e: Edit, q: seq<string>)
    requires v.Obj? && p != [] && Apart(p, q)
    ensures GetPath(ApplyEdit(v, p, e), q) == GetPath(v, q) && ApplyEdit(v, p, e).Obj?
  {
    match e
    case Put(x) => SetThenGet(v, p, x, q);
    case Remove => DeleteThenGet(v, p, q);
    case Keep =>
  }

  lemma ApplyOneCommute(v: Json, a: string, x: Json, b: string, y: Json, ts: string)
    requires v.Obj? && Apart(Split(a, '.'), Split(b, '.'))
    ensures ApplyOne(ApplyOne(v, a, x, ts), b, y, ts) == ApplyOne(ApplyOne(v, b, y, ts), a, x, ts)
  {
    var p, q := Split(a, '.'), Split(b, '.');
    var e, f := EditOf(GetPath(v, p), x, ts), EditOf(GetPath(v, q), y, ts);
    EditThenGet(v, p, e, q);
    EditThenGet(v, q, f, p);
    EditCommute(v, p, e, q, f);
  }

  lemma {:induction false} ApplyAllIsObject(v: Json, updates: Body, order: seq<string>, ts: string)
    requires v.Obj? && forall k :: k in order ==> k in updates
    ensures ApplyAll(v, updates, order, ts).Obj?
  {
    if order != [] {
      ApplyAllIsObject(v, updates, order[..|order| - 1], ts);
    }
  }

  function Drop(order: seq<string>, k: string): seq<string> {
    if order == [] then []
    else
      var last, init := order[|order| - 1], order[..|order| - 1];
      if last == k then init else Drop(init, k) + [last]
  }

  /** Any one update can be moved to the end of the walk. */
  lemma {:induction false} MoveLast(v: Json, updates: Body, order: seq<string>, keys: set<string>, k: string,
      ts: string)
    requires v.Obj? && Enumerates(order, keys) && keys <= updates.Keys && k in keys && PathsApart(keys)
    requires forall j :: j in order ==> j in updates
    ensures Enumerates(Drop(order, k), keys - {k}) && forall j :: j in Drop(order, k) ==> j in updates
    ensures ApplyAll(v, updates, order, ts) == ApplyOne(ApplyAll(v, updates, Drop(order, k), ts), k, updates[k], ts)
    decreases |order|
  {
    var last, init := order[|order| - 1], order[..|order| - 1];
    if last != k {
      MoveLast(v, updates, init, keys - {last}, k, ts);
      var rest := Drop(init, k);
      EnumerateOne(rest, keys - {last} - {k}, last);
      assert keys - {last} - {k} + {last} == keys - {k};
      assert (rest + [last])[..|rest|] == rest;
      ApplyAllIsObject(v, updates, rest, ts);
      ApplyOneCommute(ApplyAll(v, updates, rest, ts), k, updates[k], last, updates[last], ts);
    }
  }

  /** Every walk of the update map gives the same document when no path runs through another. */
  lemma {:induction false} AnyWalkSameDocument(v: Json, updates: Body, walk1: seq<string>, walk2: seq<string>,
                                               keys: set<string>, ts: string)
    requires v.Obj? && Enumerates(walk1, keys) && Enumerates(walk2, keys) && keys <= updates.Keys && PathsApart(keys)
    requires forall j :: j in walk1 || j in walk2 ==> j in updates
    ensures ApplyAll(v, updates, walk1, ts) == ApplyAll(v, updates, walk2, ts)
    decreases |walk1|
  {
    if walk1 == [] {
      assert walk2 == [];
    } else {
      var last, init := walk1[|walk1| - 1], walk1[..|walk1| - 1];
      MoveLast(v, updates, walk2, keys, last, ts);
      AnyWalkSameDocument(v, updates, init, Drop(walk2, last), keys - {last}, ts);
    }
  }

  // ---------- Plain bodies ----------

  /** Top-level keys without dots, and no sentinel in any value. */
  predicate Plain(body: Body) {
    forall k :: k in body ==> '.' !in k && !HasSentinel(body[k])
  }

  lemma PlainOne(before: Body, k: string, v: Json, ts: string)
    requires '.' !in k && !HasSentinel(v)
    ensures ApplyOne(Obj(before), k, v, ts) == Obj(before[k := v])
  {
    SplitOfPart(k, '.');
  }

  function Only(body: Body, keys: set<string>): Body {
    map k | k in keys && k in body :: body[k]
  }

  lemma OnlyGrows(base: Body, body: Body, keys: set<string>, last: string)
    requires last in keys && last in body
    ensures (base + Only(body, keys - {last}))[last := body[last]] == base + Only(body, keys)
  {}

  /** Applied as an update, a plain body is a shallow merge, whatever the walk. */
  lemma {:induction false} PlainUpdateMerges(base: Body, body: Body, order: seq<string>, keys: set<string>, ts: string)
    requires Plain(body) && Enumerates(order, keys) && keys <= body.Keys
    requires forall j :: j in order ==> j in body
    ensures ApplyAll(Obj(base), body, order, ts) == Obj(base + Only(body, keys))
    decreases |order|
  {
    if order == [] {
      assert base + Only(body, keys) == base;
    } else {
      var last, init := order[|order| - 1], order[..|order| - 1];
      PlainUpdateMerges(base, body, init, keys - {last}, ts);
      PlainOne(base + Only(body, keys - {last}), last, body[last], ts);
      OnlyGrows(base, body, keys, last);
    }
  }

  lemma PlainUpdateIsMerge(base: Body, body: Body, walk: seq<string>, ts: string)
    requires Plain(body) && Enumerates(walk, body.Keys) && forall j :: j in walk ==> j in body
    ensures ApplyAll(Obj(base), body, walk, ts) == Obj(base + body)
  {
    PlainUpdateMerges(base, body, walk, body.Keys, ts);
    assert Only(body, body.Keys) == body;
  }

  // ---------- In place ----------

  /** The objects above the current member, outermost first, each with the member taken. */
  type Spine = seq<(map<string, Json>, string)>

  function Rebuild(spine: Spine, v: Json): Json {
    if spine == [] then v
    else
      var (fields, k) := spine[|spine| - 1];
      Rebuild(spine[..|spine| - 1], Obj(fields[k := v]))
  }

  method RebuildUp(spine: Spine, v: Json) returns (r: Json)
    ensures r == Rebuild(spine, v)
  {
    r := v;
    var rest := spine;
    while rest != []
      invariant Rebuild(rest, r) == Rebuild(spine, v)
    {
      var (fields, k) := rest[|rest| - 1];
      r := Obj(fields[k := r]);
      rest := rest[..|rest| - 1];
    }
  }

  method WalkGet(root: Json, path: string) returns (r: Option<Json>)
    ensures r == GetPath(root, Split(path, '.'))
  {
    var parts, cur := Split(path, '.'), root;
    ghost var whole := parts;
    while parts != []
      invariant GetPath(cur, parts) == GetPath(root, whole)
    {
      if !cur.Obj? || parts[0] !in cur.fields {
        return None;
      }
      cur, parts := cur.fields[parts[0]], parts[1..];
    }
    return Some(cur);
  }

  method WalkSet(root: Json, path: string, value: Json) returns (r: Json)
    ensures r == SetPath(root, Split(path, '.'), value)
  {
    var parts, cur, spine: Spine := Split(path, '.'), root, [];
    ghost var whole := parts;
    while |parts| > 1
      invariant |parts| >= 1
      invariant Rebuild(spine, SetPath(cur, parts, value)) == SetPath(root, whole, value)
    {
      var obj := if cur.Obj? then cur.fields else map[];
      if !(parts[0] in obj && obj[parts[0]].Obj?) {
        obj := obj[parts[0] := Obj(map[])];
      }
      ghost var was := SetPath(cur, parts, value);
      assert was == Obj(obj[parts[0] := SetPath(obj[parts[0]], parts[1..], value)]) by {
        assert FieldsOf(cur)[parts[0] := SetPath(obj[parts[0]], parts[1..], value)]
            == obj[parts[0] := SetPath(obj[parts[0]], parts[1..], value)];
      }
      assert (spine + [(obj, parts[0])])[..|spine|] == spine;
      spine, cur, parts := spine + [(obj, parts[0])], obj[parts[0]], parts[1..];
    }
    if cur.Obj? {
      cur := Obj(cur.fields[parts[0] := value]);
    }
    r := RebuildUp(spine, cur);
  }

  method WalkDelete(root: Json, path: string) returns (r: Json)
    ensures r == DeletePath(root, Split(path, '.'))
  {
    var parts, cur, spine: Spine := Split(path, '.'), root, [];
    ghost var whole := parts;
    while |parts| > 1
      invariant |parts| >= 1
      invariant Rebuild(spine, DeletePath(cur, parts)) == DeletePath(root, whole)
      invariant Rebuild(spine, cur) == root
    {
      if !cur.Obj? || parts[0] !in cur.fields {
        return root;
      }
      assert (spine + [(cur.fields, parts[0])])[..|spine|] == spine;
      assert cur.fields[parts[0] := cur.fields[parts[0]]] == cur.fields;
      spine, cur, parts := spine + [(cur.fields, parts[0])], cur.fields[parts[0]], parts[1..];
    }
    if cur.Obj? {
      cur := Obj(cur.fields - {parts[0]});
    }
    r := RebuildUp(spine, cur);
  }

  /** The merge path over an existing body, walking the update map in some order. */
  method ApplyUpdate(base: Body, updates: Body, ts: string) returns (r: Body, ghost order: seq<string>)
    ensures Enumerates(order, updates.Keys) && forall k :: k in order ==> k in updates
    ensures Obj(r) == ApplyAll(Obj(base), updates, order, ts)
    ensures PathsApart(updates.Keys) ==>
              forall walk :: Enumerates(walk, updates.Keys) && (forall k :: k in walk ==> k in updates) ==>
                Obj(r) == ApplyAll(Obj(base), updates, walk, ts)
    ensures (forall k :: k in updates ==> '.' !in k && !HasSentinel(updates[k])) ==> r == base + updates
  {
    var root := Obj(base);
    var todo := updates.Keys;
    ghost var done: set<string> := {};
    order := [];
    while todo != {}
      invariant todo !! done && todo + done == updates.Keys
      invariant Enumerates(order, done) && (forall k :: k in order ==> k in updates)
      invariant root == ApplyAll(Obj(base), updates, order, ts)
    {
      var path :| path in todo;
      var value := updates[path];
      EnumerateOne(order, done, path);
      assert (order + [path])[..|order|] == order;
      var cur := WalkGet(root, path);
      match EditOf(cur, value, ts) {
        case Put(x) => root := WalkSet(root, path, x);
        case Remove => root := WalkDelete(root, path);
        case Keep =>
      }
      order := order + [path];
      todo, done := todo - {path}, done + {path};
    }
    ApplyAllIsObject(Obj(base), updates, order, ts);
    r := root.fields;
    if PathsApart(updates.Keys) {
      forall walk | Enumerates(walk, updates.Keys) && forall k :: k in walk ==> k in updates
        ensures Obj(r) == ApplyAll(Obj(base), updates, walk, ts)
      {
        AnyWalkSameDocument(Obj(base), updates, order, walk, updates.Keys, ts);
      }
    }
    if Plain(updates) {
      PlainUpdateIsMerge(base, updates, order, ts);
    }
  }
}
