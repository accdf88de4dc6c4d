/** What single updates mean, and how the insert path relates to the merge path. */
module AtomicsLaws {
  import opened Values
  import opened Text
  import opened Atomics

  // ---------- Arrays ----------

  predicate NoRepeats(s: seq<Json>) {
    forall i, j :: 0 <= i < j < |s| ==> s[i] != s[j]
  }

  lemma {:induction false} AddMissingHolds(have: seq<Json>, els: seq<Json>, x: Json)
    ensures x in AddMissing(have, els) <==> x in els && x !in have
  {
    if els != [] {
      AddMissingHolds(have, els[1..], x);
      assert x in els <==> x == els[0] || x in els[1..];
    }
  }

  /** `arrayUnion` keeps what was there, in place, and holds exactly the old and the new elements. */
  lemma UnionHolds(have: seq<Json>, els: seq<Json>, x: Json)
    ensures have <= Union(have, els)
    ensures x in Union(have, els) <==> x in have || x in els
  {
    AddMissingHolds(have, els, x);
  }

  /** No element missing from the array is named twice. */
  predicate NamedOnce(have: seq<Json>, els: seq<Json>) {
    forall i, j :: 0 <= i < j < |els| && els[i] !in have ==> els[i] != els[j]
  }

  lemma PrependRepeats(x: Json, s: seq<Json>)
    ensures NoRepeats([x] + s) <==> NoRepeats(s) && x !in s
  {
    var t := [x] + s;
    if NoRepeats(t) {
      forall i, j | 0 <= i < j < |s| ensures s[i] != s[j] { assert t[i + 1] != t[j + 1]; }
      forall j | 0 <= j < |s| ensures s[j] != x { assert t[0] != t[j + 1]; }
    } else {
      var i, j :| 0 <= i < j < |t| && t[i] == t[j];
      assert i == 0 ==> s[j - 1] == x;
      assert i > 0 ==> s[i - 1] == s[j - 1];
    }
  }

  lemma {:induction false} AddMissingRepeats(have: seq<Json>, els: seq<Json>)
    ensures NoRepeats(AddMissing(have, els)) <==> NamedOnce(have, els)
  {
    if els != [] {
      var x, rest := els[0], els[1..];
      AddMissingRepeats(have, rest);
      assert NamedOnce(have, els) <==> NamedOnce(have, rest) && (x in have || x !in rest) by {
        if NamedOnce(have, els) {
          forall i, j | 0 <= i < j < |rest| && rest[i] !in have ensures rest[i] != rest[j] {
            assert els[i + 1] != els[j + 1];
          }
          forall j | 0 <= j < |rest| && x !in have ensures rest[j] != x { assert els[0] != els[j + 1]; }
        } else {
          var i, j :| 0 <= i < j < |els| && els[i] !in have && els[i] == els[j];
          assert els[j] == rest[j - 1];
          assert i > 0 ==> rest[i - 1] == els[i];
        }
      }
      if x !in have {
        PrependRepeats(x, AddMissing(have, rest));
        AddMissingHolds(have, rest, x);
      } else {
        assert [] + AddMissing(have, rest) == AddMissing(have, rest);
      }
    }
  }

  /** The array comes out without repeats exactly when it went in without and no missing element is named twice:
      the elements of one update are compared with the old array only, not with each other. */
  lemma UnionRepeatsIff(have: seq<Json>, els: seq<Json>)
    ensures NoRepeats(Union(have, els)) <==> NoRepeats(have) && NamedOnce(have, els)
  {
    var more := AddMissing(have, els);
    AddMissingRepeats(have, els);
    var all := Union(have, els);
    if NoRepeats(have) && NoRepeats(more) {
      forall i, j | 0 <= i < j < |all| ensures all[i] != all[j] {
        if i < |have| <= j {
          AddMissingHolds(have, els, more[j - |have|]);
        } else if |have| <= i {
          assert more[i - |have|] != more[j - |have|];
        }
      }
    } else if !NoRepeats(have) {
      var i, j :| 0 <= i < j < |have| && have[i] == have[j];
      assert all[i] == all[j];
    } else {
      var i, j :| 0 <= i < j < |more| && more[i] == more[j];
      assert all[|have| + i] == all[|have| + j];
    }
  }

  /** Naming one new element twice puts it in twice. */
  lemma UnionCanRepeat(x: Json)
    ensures Union([], [x, x]) == [x, x] && !NoRepeats(Union([], [x, x]))
  {
    assert [x, x][1..] == [x] && [x][1..] == [];
    assert AddMissing([], [x]) == [x] + AddMissing([], []);
    assert Union([], [x, x]) == [x, x];
    assert [x, x][0] == [x, x][1];
  }

  lemma {:induction false} NothingMissing(have: seq<Json>, els: seq<Json>)
    requires forall x :: x in els ==> x in have
    ensures AddMissing(have, els) == []
  {
    if els != [] {
      assert els[0] in els;
      NothingMissing(have, els[1..]);
    }
  }

  /** A repeated union adds nothing. */
  lemma UnionTwice(have: seq<Json>, els: seq<Json>)
    ensures Union(Union(have, els), els) == Union(have, els)
  {
    forall x | x in els ensures x in Union(have, els) {
      UnionHolds(have, els, x);
    }
    NothingMissing(Union(have, els), els);
  }

  /** `arrayRemove` keeps exactly the elements it does not name, and works piece by piece, so in order. */
  lemma {:induction false} WithoutHolds(items: seq<Json>, gone: seq<Json>, x: Json)
    ensures x in Without(items, gone) <==> x in items && x !in gone
  {
    if items != [] {
      WithoutHolds(items[1..], gone, x);
      assert x in items <==> x == items[0] || x in items[1..];
    }
  }

  lemma {:induction false} WithoutPieces(a: seq<Json>, b: seq<Json>, gone: seq<Json>)
    ensures Without(a + b, gone) == Without(a, gone) + Without(b, gone)
  {
    if a == [] {
      assert a + b == b;
    } else {
      assert (a + b)[1..] == a[1..] + b;
      WithoutPieces(a[1..], b, gone);
    }
  }

  // ---------- One update ----------

  /** The value an update leaves at its path, given what was there. */
  function Left(cur: Option<Json>, e: Edit): Option<Json> {
    match e
    case Put(x) => Some(x)
    case Remove => None
    case Keep => cur
  }

  /** An update decides its own path and leaves alone every path that runs through neither end. */
  lemma OneUpdate(v: Json, path: string, value: Json, ts: string, q: seq<string>)
    requires v.Obj?
    ensures var p, after := Split(path, '.'), ApplyOne(v, path, value, ts);
            && after.Obj? && GetPath(after, p) == Left(GetPath(v, p), EditOf(GetPath(v, p), value, ts))
            && (Apart(p, q) ==> GetPath(after, q) == GetPath(v, q))
  {
    var p := Split(path, '.');
    var e := EditOf(GetPath(v, p), value, ts);
    match e {
      case Put(x) => SetThenGet(v, p, x, q);
      case Remove => DeleteThenGet(v, p, q);
      case Keep =>
    }
    if Apart(p, q) {
      EditThenGet(v, p, e, q);
    }
  }

  // ---------- What each sentinel leaves at its path ----------

  /** The elements that pass, in order. */
  function Kept(s: seq<Json>, keep: Json -> bool): seq<Json> {
    if s == [] then [] else (if keep(s[0]) then [s[0]] else []) + Kept(s[1..], keep)
  }

  lemma {:induction false} AddMissingKeeps(have: seq<Json>, els: seq<Json>, keep: Json -> bool)
    requires forall x :: keep(x) <==> x !in have
    ensures AddMissing(have, els) == Kept(els, keep)
  {
    if els != [] {
      AddMissingKeeps(have, els[1..], keep);
    }
  }

  lemma {:induction false} WithoutKeeps(items: seq<Json>, gone: seq<Json>, keep: Json -> bool)
    requires forall x :: keep(x) <==> x !in gone
    ensures Without(items, gone) == Kept(items, keep)
  {
    if items != [] {
      WithoutKeeps(items[1..], gone, keep);
    }
  }

  /** The value is an object that names this sentinel. */
  predicate Names(value: Json, op: string) {
    value.Obj? && "__type__" in value.fields && value.fields["__type__"] == Str(op)
  }

  /** The elements it carries; a payload of another kind carries none. */
  function Elements(value: Json): seq<Json>
    requires value.Obj?
  {
    if "elements" in value.fields && value.fields["elements"].Arr? then value.fields["elements"].items else []
  }

  /** The array that is there, or an empty one. */
  function ArrayAt(v: Json, p: seq<string>): seq<Json> {
    match GetPath(v, p)
    case Some(Arr(items)) => items
    case _ => []
  }

  /** After an `arrayUnion` the path reads the array that was there, as it was, followed by the named elements that it
      did not hold, in order; it is free of repeats exactly when it was and none of those is named twice. */
  lemma UnionAt(v: Json, path: string, value: Json, ts: string)
    requires v.Obj? && Names(value, "arrayUnion")
    ensures var p := Split(path, '.');
            var had, els, after := ArrayAt(v, p), Elements(value), GetPath(ApplyOne(v, path, value, ts), p);
            && after.Some? && after.value.Arr? && after.value.items == had + Kept(els, x => x !in had)
            && (forall x :: x in after.value.items <==> x in had || x in els)
            && (NoRepeats(after.value.items) <==> NoRepeats(had) && NamedOnce(had, els))
  {
    var p := Split(path, '.');
    var had, els := ArrayAt(v, p), Elements(value);
    OneUpdate(v, path, value, ts, []);
    AddMissingKeeps(had, els, x => x !in had);
    UnionRepeatsIff(had, els);
    forall x ensures x in Union(had, els) <==> x in had || x in els {
      UnionHolds(had, els, x);
    }
  }

  /** After an `arrayRemove` the path reads the array that was there without the named elements, in order. */
  lemma RemoveAt(v: Json, path: string, value: Json, ts: string)
    requires v.Obj? && Names(value, "arrayRemove")
    ensures var p := Split(path, '.');
            var had, gone := ArrayAt(v, p), Elements(value);
            GetPath(ApplyOne(v, path, value, ts), p) == Some(Arr(Kept(had, x => x !in gone)))
  {
    var p := Split(path, '.');
    var had, gone := ArrayAt(v, p), Elements(value);
    OneUpdate(v, path, value, ts, []);
    WithoutKeeps(had, gone, x => x !in gone);
  }

  /** A deleted field reads nothing, whatever was there; a stamp reads the time; an increment reads the number that was
      there, or 0, plus its own; a plain value reads itself. */
  lemma SentinelAt(v: Json, path: string, value: Json, ts: string)
    requires v.Obj?
    ensures var p := Split(path, '.');
            var before, after := GetPath(v, p), GetPath(ApplyOne(v, path, value, ts), p);
            && (Names(value, "deleteField") ==> after == None)
            && (Names(value, "serverTimestamp") ==> after == Some(Str(ts)))
            && (Names(value, "increment") ==>
                  after == Some(Num((match before case Some(Num(m)) => m case _ => 0)
                                    + (match Member(value.fields, "n") case Some(Num(n)) => n case _ => 0))))
            && (!HasSentinel(value) ==> after == Some(value))
  {
    OneUpdate(v, path, value, ts, []);
  }

  /** A value with sentinels inside, and none of the five itself, leaves what it resolves to. */
  lemma NestedAt(v: Json, path: string, value: Json, ts: string)
    requires v.Obj?
    requires forall op :: op in ["serverTimestamp", "increment", "arrayUnion", "arrayRemove", "deleteField"] ==>
               !Names(value, op)
    ensures var p := Split(path, '.');
            ResolveDeep(value, ts).Some? && GetPath(ApplyOne(v, path, value, ts), p) == ResolveDeep(value, ts)
  {
    OneUpdate(v, path, value, ts, []);
    assert forall op :: Names(value, op) <==> OpOf(value) == Some(op);
    if !HasSentinel(value) {
      ResolveDeepIdentity(value, ts);
    }
  }

  // ---------- What resolving leaves inside a value ----------

  /** No sentinel stands on the path above its end. */
  predicate ClearAbove(v: Json, path: seq<string>) {
    path != [] ==>
      OpOf(v).None? && (v.Obj? && path[0] in v.fields ==> ClearAbove(v.fields[path[0]], path[1..]))
  }

  /** Resolving then reading a path is reading then resolving, wherever no sentinel stands above. */
  lemma {:induction false} ResolveThenGet(v: Json, path: seq<string>, ts: string)
    requires ClearAbove(v, path)
    ensures (if ResolveDeep(v, ts).Some? then GetPath(ResolveDeep(v, ts).value, path) else None)
            == (if GetPath(v, path).Some? then ResolveDeep(GetPath(v, path).value, ts) else None)
    decreases |path|
  {
    if path != [] && v.Obj? {
      if path[0] in v.fields {
        ResolveThenGet(v.fields[path[0]], path[1..], ts);
      }
    }
  }

  /** Elements of an array resolve one by one; those that resolve to nothing drop out. */
  lemma {:induction false} ResolvePieces(a: seq<Json>, b: seq<Json>, ts: string)
    ensures ResolveItems(a + b, ts) == ResolveItems(a, ts) + ResolveItems(b, ts)
    ensures forall x :: ResolveItems([x], ts) == if ResolveDeep(x, ts).Some? then [ResolveDeep(x, ts).value] else []
  {
    if a == [] {
      assert a + b == b;
      forall x
        ensures ResolveItems([x], ts) == if ResolveDeep(x, ts).Some? then [ResolveDeep(x, ts).value] else []
      {
        assert [x][1..] == [];
      }
    } else {
      assert (a + b)[1..] == a[1..] + b;
      ResolvePieces(a[1..], b, ts);
    }
  }

  /** What a sentinel resolves to where nothing was there before. */
  lemma SentinelResolves(value: Json, ts: string)
    ensures Names(value, "deleteField") ==> ResolveDeep(value, ts) == None
    ensures Names(value, "serverTimestamp") ==> ResolveDeep(value, ts) == Some(Str(ts))
    ensures Names(value, "increment") ==>
              ResolveDeep(value, ts) == Some(if "n" in value.fields then value.fields["n"] else Num(0))
    ensures Names(value, "arrayUnion") ==>
              ResolveDeep(value, ts) == Some(if "elements" in value.fields then value.fields["elements"] else Arr([]))
    ensures Names(value, "arrayRemove") ==> ResolveDeep(value, ts) == Some(Arr([]))
  {}

  // ---------- Two updates in a row ----------

  lemma {:induction false} SetTwice(v: Json, p: seq<string>, x: Json, y: Json)
    requires p != [] && v.Obj?
    ensures SetPath(SetPath(v, p, x), p, y) == SetPath(v, p, y)
    decreases |p|
  {
    if |p| == 1 {
      assert v.fields[p[0] := x][p[0] := y] == v.fields[p[0] := y];
    } else {
      SetSetSameHead(v, p, x, p, y);
      SetTwice(Child(v.fields, p[0]), p[1..], x, y);
    }
  }

  function Increment(n: int): Json {
    Obj(map[TYPE_KEY := Str("increment"), "n" := Num(n)])
  }

  /** Increments add up: two in a row are one of their sum. */
  lemma IncrementsAdd(v: Json, path: string, a: int, b: int, ts: string)
    requires v.Obj?
    ensures ApplyOne(ApplyOne(v, path, Increment(a), ts), path, Increment(b), ts)
            == ApplyOne(v, path, Increment(a + b), ts)
  {
    var p := Split(path, '.');
    var cur := AsInt(GetPath(v, p));
    SetThenGet(v, p, Num(cur + a), []);
    SetTwice(v, p, Num(cur + a), Num(cur + a + b));
  }

  // ---------- Exactly when the walk does not matter ----------

  /** Two walks of these updates of this document agree. */
  ghost predicate Agree(base: Body, updates: Body, walk1: seq<string>, walk2: seq<string>, ts: string) {
    Enumerates(walk1, updates.Keys) && Enumerates(walk2, updates.Keys)
    && (forall j :: j in walk1 || j in walk2 ==> j in updates) ==>
      ApplyAll(Obj(base), updates, walk1, ts) == ApplyAll(Obj(base), updates, walk2, ts)
  }

  /** All walks agree, for every document and all values under these keys. */
  ghost predicate WalksAgree(keys: set<string>, ts: string) {
    forall base, updates: Body, walk1, walk2 :: updates.Keys == keys ==> Agree(base, updates, walk1, walk2, ts)
  }

  /** Some walk of the keys that ends with `last`. */
  lemma WalkEndingWith(keys: set<string>, last: string) returns (walk: seq<string>)
    requires last in keys
    ensures Enumerates(walk, keys) && walk != [] && walk[|walk| - 1] == last
    decreases keys
  {
    var rest := keys - {last};
    var init: seq<string> := [];
    if rest != {} {
      var k :| k in rest;
      init := WalkEndingWith(rest, k);
    }
    walk := init + [last];
    assert walk[..|init|] == init;
  }

  /** What a walk's last update leaves at its path, when the value is plain. */
  lemma LastWins(base: Body, updates: Body, walk: seq<string>, ts: string)
    requires walk != [] && forall j :: j in walk ==> j in updates
    requires updates[walk[|walk| - 1]].Num?
    ensures GetPath(ApplyAll(Obj(base), updates, walk, ts), Split(walk[|walk| - 1], '.'))
            == Some(updates[walk[|walk| - 1]])
  {
    var init, last := walk[..|walk| - 1], walk[|walk| - 1];
    ApplyAllIsObject(Obj(base), updates, init, ts);
    OneUpdate(ApplyAll(Obj(base), updates, init, ts), last, updates[last], ts, []);
  }

  /** A path that is read has objects above its end. */
  lemma {:induction false} ObjectsAbove(v: Json, p: seq<string>, q: seq<string>)
    requires p < q && GetPath(v, q).Some?
    ensures GetPath(v, p).Some? && GetPath(v, p).value.Obj?
  {
    if p != [] {
      ObjectsAbove(v.fields[p[0]], p[1..], q[1..]);
    }
  }

  function Numbers(keys: set<string>): Body {
    map k | k in keys :: Num(0)
  }

  lemma InWalk(walk: seq<string>, keys: set<string>)
    requires Enumerates(walk, keys)
    ensures forall j :: j in walk ==> j in keys
  {
    forall j | j in walk ensures j in keys {
      EnumerateIn(walk, keys, j);
    }
  }

  /** Numbers at a path and at one below it: whichever is written last decides. */
  lemma OverlapDisagrees(keys: set<string>, a: string, b: string, ts: string)
    requires a in keys && b in keys && Split(a, '.') < Split(b, '.')
    ensures !WalksAgree(keys, ts)
  {
    var updates := Numbers(keys);
    assert updates.Keys == keys;
    var walkA := WalkEndingWith(keys, a);
    var walkB := WalkEndingWith(keys, b);
    InWalk(walkA, keys);
    InWalk(walkB, keys);
    LastWins(map[], updates, walkA, ts);
    LastWins(map[], updates, walkB, ts);
    ObjectsAbove(ApplyAll(Obj(map[]), updates, walkB, ts), Split(a, '.'), Split(b, '.'));
    assert !Agree(map[], updates, walkA, walkB, ts);
  }

  lemma SplitsDiffer(a: string, b: string)
    requires a != b
    ensures Split(a, '.') <= Split(b, '.') ==> Split(a, '.') < Split(b, '.')
    ensures Split(b, '.') <= Split(a, '.') ==> Split(b, '.') < Split(a, '.')
  {
    JoinOfSplit(a, '.');
    JoinOfSplit(b, '.');
    var p, q := Split(a, '.'), Split(b, '.');
    assert p != q;
    assert |p| == |q| && (p <= q || q <= p) ==> p == q;
  }

  /** For every set of update keys: all walks give one document, whatever the document and the values, exactly when
      no path runs through another. */
  lemma WalksAgreeIff(keys: set<string>, ts: string)
    ensures WalksAgree(keys, ts) <==> PathsApart(keys)
  {
    if PathsApart(keys) {
      forall base, updates: Body, walk1, walk2 | updates.Keys == keys ensures Agree(base, updates, walk1, walk2, ts) {
        if Enumerates(walk1, keys) && Enumerates(walk2, keys) && forall j :: j in walk1 || j in walk2 ==> j in updates {
          AnyWalkSameDocument(Obj(base), updates, walk1, walk2, keys, ts);
        }
      }
    } else {
      var a, b :| a in keys && b in keys && a != b && !Apart(Split(a, '.'), Split(b, '.'));
      SplitsDiffer(a, b);
      if Split(a, '.') <= Split(b, '.') {
        OverlapDisagrees(keys, a, b, ts);
      } else {
        OverlapDisagrees(keys, b, a, ts);
      }
    }
  }

  // ---------- Insert against merge ----------

  /** The payload of a sentinel has the kind the merge path reads. */
  predicate WellTyped(v: Json) {
    match OpOf(v)
    case Some("increment") => "n" in v.fields ==> v.fields["n"].Num?
    case Some("arrayUnion") => "elements" in v.fields ==> v.fields["elements"].Arr?
    case _ => true
  }

  lemma {:induction false} AddAllToNone(els: seq<Json>)
    ensures AddMissing([], els) == els
  {
    if els != [] {
      AddAllToNone(els[1..]);
    }
  }

  /** On a member that is not there, the two paths agree exactly on well-typed payloads. */
  lemma AgreeIffWellTyped(v: Json, ts: string)
    ensures Left(None, EditOf(None, v, ts)) == ResolveDeep(v, ts) <==> WellTyped(v)
  {
    match OpOf(v)
    case Some("increment") =>
    case Some("arrayUnion") =>
      AddAllToNone(AsArray(Member(v.fields, "elements")));
      assert [] + AddMissing([], AsArray(Member(v.fields, "elements"))) == AsArray(Member(v.fields, "elements"));
    case Some("arrayRemove") =>
      assert Without([], AsArray(Member(v.fields, "elements"))) == [];
    case _ =>
      if !HasSentinel(v) {
        ResolveDeepIdentity(v, ts);
      }
  }

  /** Merged into nothing, each member stands alone. */
  lemma {:induction false} MergedIntoNothing(data: Body, order: seq<string>, keys: set<string>, ts: string, k: string)
    requires (forall j :: j in data ==> '.' !in j) && Enumerates(order, keys) && keys <= data.Keys
    requires forall j :: j in order ==> j in data
    ensures var r := ApplyAll(Obj(map[]), data, order, ts);
            r.Obj? && Member(r.fields, k) == if k in keys then Left(None, EditOf(None, data[k], ts)) else None
    decreases |order|
  {
    if order != [] {
      var last, init := order[|order| - 1], order[..|order| - 1];
      MergedIntoNothing(data, init, keys - {last}, ts, k);
      MergedIntoNothing(data, init, keys - {last}, ts, last);
      MemberAfter(ApplyAll(Obj(map[]), data, init, ts), last, data[last], ts, k);
    }
  }

  lemma MemberAfter(root: Json, last: string, value: Json, ts: string, k: string)
    requires root.Obj? && '.' !in last && last !in root.fields
    ensures var r := ApplyOne(root, last, value, ts);
            r.Obj? && Member(r.fields, k) ==
            if k == last then Left(None, EditOf(None, value, ts)) else Member(root.fields, k)
  {
    SplitOfPart(last, '.');
    assert GetPath(root, [last]) == None;
  }

  lemma SameMembers(a: Body, b: Body)
    ensures a == b <==> forall k :: Member(a, k) == Member(b, k)
  {
    if forall k :: Member(a, k) == Member(b, k) {
      forall k ensures (k in a <==> k in b) && (k in a ==> a[k] == b[k]) {
        assert Member(a, k) == Member(b, k);
      }
    }
  }

  /** Inserting a body gives what merging it into an empty document gives, exactly when every sentinel in it is
      well typed. Keys with dots are left out: only the merge path reads them as paths. */
  lemma CreateAgreesWithUpdate(data: Body, walk: seq<string>, ts: string)
    requires (forall j :: j in data ==> '.' !in j) && Enumerates(walk, data.Keys) && forall j :: j in walk ==> j in data
    ensures ApplyAll(Obj(map[]), data, walk, ts) == Obj(ResolveForCreate(data, ts)) <==>
              forall k :: k in data ==> WellTyped(data[k])
  {
    MergedIntoNothing(data, walk, data.Keys, ts, "");
    CreateFastPath(data, ts);
    var merged, made := ApplyAll(Obj(map[]), data, walk, ts).fields, ResolveForCreate(data, ts);
    SameMembers(merged, made);
    forall k ensures Member(merged, k) == Member(made, k) <==> (k in data ==> WellTyped(data[k])) {
      MergedIntoNothing(data, walk, data.Keys, ts, k);
      if k in data {
        AgreeIffWellTyped(data[k], ts);
      }
    }
  }
}
