/** Values shared by every part of the gateway: options and results, JSON trees, documents. */
module Values {

  datatype Option<+T> = None | Some(value: T)

  datatype Result<+T, +E> = Ok(value: T) | Err(error: E)

  type Byte = b: int | 0 <= b < 256

  /** A JSON tree. Numbers are integers; object members are unordered. */
  datatype Json =
    | Null
    | Bool(b: bool)
    | Num(n: int)
    | Str(s: string)
    | Arr(items: seq<Json>)
    | Obj(fields: map<string, Json>)

  /** The top-level members of a document. */
  type Body = map<string, Json>

  /** A stored document: the id lives outside the body. */
  datatype Doc = Doc(id: string, data: Body)

  /** Drivers are maps from (collection, id) to a document. */
  type Key = (string, string)

  type Store = map<Key, Doc>

  function Lookup(s: Store, k: Key): Option<Doc> {
    if k in s then Some(s[k]) else None
  }

  lemma SameLookups(a: Store, b: Store)
    requires forall k :: Lookup(a, k) == Lookup(b, k)
    ensures a == b
  {
    assert forall k :: k in a <==> Lookup(a, k).Some?;
    assert forall k :: k in b <==> Lookup(b, k).Some?;
    assert forall k :: k in a ==> Lookup(a, k) == Some(a[k]);
    assert forall k :: k in b ==> Lookup(b, k) == Some(b[k]);
  }

  /** `order` lists the elements of a set, each once: some walk of a hash map. */
  ghost predicate Enumerates<T(!new)>(order: seq<T>, keys: set<T>) {
    if order == [] then keys == {}
    else order[|order| - 1] in keys && Enumerates(order[..|order| - 1], keys - {order[|order| - 1]})
  }

  lemma EnumerateOne<T(!new)>(order: seq<T>, done: set<T>, k: T)
    requires Enumerates(order, done) && k !in done
    ensures Enumerates(order + [k], done + {k})
  {
    assert (order + [k])[..|order|] == order;
    assert done + {k} - {k} == done;
  }

  lemma {:induction false} EnumerateIn<T(!new)>(order: seq<T>, keys: set<T>, k: T)
    requires Enumerates(order, keys)
    ensures k in order <==> k in keys
    decreases |order|
  {
    if order != [] {
      EnumerateIn(order[..|order| - 1], keys - {order[|order| - 1]}, k);
      assert order == order[..|order| - 1] + [order[|order| - 1]];
    }
  }
}
