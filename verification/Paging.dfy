/** The list pipeline in id order (sort, cursor, offset, limit) and the page walk over it. */
module Paging {
  import opened Values
  import opened Text

  datatype Ordering = Lt | Eq | Gt

  function CmpText(a: string, b: string): Ordering {
    if a == b then Eq else if Less(a, b) then Lt else Gt
  }

  /** Values of different kinds do not compare. */
  function CmpJson(a: Json, b: Json): Option<Ordering> {
    match (a, b)
    case (Num(x), Num(y)) => Some(if x < y then Lt else if x == y then Eq else Gt)
    case (Str(x), Str(y)) => Some(CmpText(x, y))
    case (Bool(x), Bool(y)) => Some(if x == y then Eq else if y then Lt else Gt)
    case _ => if a == b then Some(Eq) else None
  }

  datatype Query = Query(startAt: Option<Json>, startAfter: Option<Json>, endAt: Option<Json>, endBefore: Option<Json>,
                         offset: Option<nat>, limit: Option<nat>)

  /** The cursor looks at a body field named `id` first, and at the document id only without one. */
  function CursorValue(d: Doc): Json {
    if "id" in d.data then d.data["id"] else Str(d.id)
  }

  /** A bound that is set wants a comparable value on one of the accepted sides. */
  predicate PassesBound(x: Json, bound: Option<Json>, lt: bool, eq: bool, gt: bool) {
    bound.Some? ==>
      match CmpJson(x, bound.value)
      case None => false
      case Some(Lt) => lt
      case Some(Eq) => eq
      case Some(Gt) => gt
  }

  predicate MatchesCursor(d: Doc, q: Query) {
    var x := CursorValue(d);
    && PassesBound(x, q.startAt, false, true, true)
    && PassesBound(x, q.startAfter, false, false, true)
    && PassesBound(x, q.endAt, true, true, false)
    && PassesBound(x, q.endBefore, true, false, false)
  }

  function ApplyCursor(docs: seq<Doc>, q: Query): seq<Doc> {
    if docs == [] then []
    else (if MatchesCursor(docs[0], q) then [docs[0]] else []) + ApplyCursor(docs[1..], q)
  }

  function ApplyOffsetLimit(docs: seq<Doc>, q: Query): seq<Doc> {
    var off := if q.offset.None? then 0 else if q.offset.value < |docs| then q.offset.value else |docs|;
    var rest := docs[off..];
    if q.limit.Some? && q.limit.value < |rest| then rest[..q.limit.value] else rest
  }

  function Insert(d: Doc, docs: seq<Doc>): seq<Doc> {
    if docs == [] || CmpText(d.id, docs[0].id) != Gt then [d] + docs else [docs[0]] + Insert(d, docs[1..])
  }

  /** The ascending sort by document id. */
  function SortById(docs: seq<Doc>): seq<Doc> {
    if docs == [] then [] else Insert(docs[0], SortById(docs[1..]))
  }

  function List(docs: seq<Doc>, q: Query): seq<Doc> {
    ApplyOffsetLimit(ApplyCursor(SortById(docs), q), q)
  }

  ghost predicate DistinctIds(docs: seq<Doc>) {
    forall i, j :: 0 <= i < j < |docs| ==> docs[i].id != docs[j].id
  }

  /** The value is a text above this id. */
  predicate Above(x: Json, id: string) {
    x.Str? && Less(id, x.s)
  }

  /** Each document's cursor value lies above every smaller id, and above neither its own nor a larger one. */
  ghost predicate CursorsFollowIds(docs: seq<Doc>) {
    forall a, b :: a in docs && b in docs ==> (Above(CursorValue(a), b.id) <==> Less(b.id, a.id))
  }

  /** No body has an `id` field other than the document's own id. */
  ghost predicate NoOtherId(docs: seq<Doc>) {
    forall d :: d in docs ==> ("id" in d.data ==> d.data["id"] == Str(d.id))
  }

  // ---------- Sorting ----------

  ghost predicate Ascending(docs: seq<Doc>) {
    forall i, j :: 0 <= i < j < |docs| ==> Less(docs[i].id, docs[j].id)
  }

  lemma {:induction false} InsertAscends(d: Doc, docs: seq<Doc>)
    requires Ascending(docs) && forall e :: e in docs ==> e.id != d.id
    ensures Ascending(Insert(d, docs)) && multiset(Insert(d, docs)) == multiset{d} + multiset(docs)
  {
    if docs == [] {
    } else if CmpText(d.id, docs[0].id) != Gt {
      assert docs[0] in docs;
      forall i | 0 <= i < |docs| ensures Less(d.id, docs[i].id) {
        if i > 0 { LessIsTransitive(d.id, docs[0].id, docs[i].id); }
      }
    } else {
      LessIsTotal(d.id, docs[0].id);
      assert docs[0] in docs;
      var rest := Insert(d, docs[1..]);
      InsertAscends(d, docs[1..]);
      assert docs == [docs[0]] + docs[1..];
      forall e | e in rest ensures Less(docs[0].id, e.id) {
        assert e in multiset(rest);
        if e != d {
          assert e in docs[1..];
          var i :| 0 <= i < |docs[1..]| && docs[1..][i] == e;
          assert docs[i + 1] == e;
        }
      }
    }
  }

  lemma {:induction false} SortAscends(docs: seq<Doc>)
    requires DistinctIds(docs)
    ensures Ascending(SortById(docs)) && multiset(SortById(docs)) == multiset(docs)
  {
    if docs != [] {
      SortAscends(docs[1..]);
      assert docs == [docs[0]] + docs[1..];
      forall e | e in SortById(docs[1..]) ensures e.id != docs[0].id {
        assert e in multiset(SortById(docs[1..]));
        var i :| 0 <= i < |docs[1..]| && docs[1..][i] == e;
        assert docs[i + 1] == e;
      }
      InsertAscends(docs[0], SortById(docs[1..]));
    }
  }

  // ---------- Cursors and offsets ----------

  /** `b` is unset or a string. */
  predicate Textual(b: Option<Json>) {
    b.Some? ==> b.value.Str?
  }

  /** Numbers and truth values compare among themselves, and values of different kinds do not compare unless equal. */
  lemma CmpJsonExact(a: Json, b: Json)
    ensures a.Num? && b.Num? ==>
              && (CmpJson(a, b) == Some(Lt) <==> a.n < b.n) && (CmpJson(a, b) == Some(Eq) <==> a.n == b.n)
              && (CmpJson(a, b) == Some(Gt) <==> a.n > b.n)
    ensures a.Bool? && b.Bool? ==>
              && (CmpJson(a, b) == Some(Lt) <==> !a.b && b.b) && (CmpJson(a, b) == Some(Eq) <==> a.b == b.b)
              && (CmpJson(a, b) == Some(Gt) <==> a.b && !b.b)
    ensures CmpJson(a, b) == None <==>
              a != b && !(a.Num? && b.Num?) && !(a.Bool? && b.Bool?) && !(a.Str? && b.Str?)
    ensures CmpJson(a, b) == Some(Eq) <==> a == b
  {
    if a.Str? && b.Str? {
      LessIsStrict(a.s, b.s);
    }
  }

  /** Number bounds cut an interval of the numbers in a body's `id`. */
  lemma CursorIsNumberInterval(d: Doc, q: Query)
    requires "id" in d.data && d.data["id"].Num?
    requires forall b :: b in [q.startAt, q.startAfter, q.endAt, q.endBefore] ==> b.Some? ==> b.value.Num?
    ensures MatchesCursor(d, q) <==>
            && (q.startAt.Some? ==> q.startAt.value.n <= d.data["id"].n)
            && (q.startAfter.Some? ==> q.startAfter.value.n < d.data["id"].n)
            && (q.endAt.Some? ==> d.data["id"].n <= q.endAt.value.n)
            && (q.endBefore.Some? ==> d.data["id"].n < q.endBefore.value.n)
  {
    assert forall b :: b in [q.startAt, q.startAfter, q.endAt, q.endBefore] <==>
                       b == q.startAt || b == q.startAfter || b == q.endAt || b == q.endBefore;
  }

  /** String bounds cut an interval of ids: `startAt` and `endAt` with their ends, the other two without. */
  lemma CursorIsInterval(d: Doc, q: Query)
    requires "id" !in d.data && Textual(q.startAt) && Textual(q.startAfter) && Textual(q.endAt) && Textual(q.endBefore)
    ensures MatchesCursor(d, q) <==>
            && (q.startAt.Some? ==> q.startAt.value.s == d.id || Less(q.startAt.value.s, d.id))
            && (q.startAfter.Some? ==> Less(q.startAfter.value.s, d.id))
            && (q.endAt.Some? ==> q.endAt.value.s == d.id || Less(d.id, q.endAt.value.s))
            && (q.endBefore.Some? ==> Less(d.id, q.endBefore.value.s))
  {
    TextBound(d.id, q.startAt);
    TextBound(d.id, q.startAfter);
    TextBound(d.id, q.endAt);
    TextBound(d.id, q.endBefore);
  }

  lemma TextBound(id: string, b: Option<Json>)
    requires Textual(b)
    ensures b.Some? ==> var o := CmpJson(Str(id), b.value);
              && (o == Some(Lt) <==> Less(id, b.value.s)) && (o == Some(Gt) <==> Less(b.value.s, id))
              && (o == Some(Eq) <==> id == b.value.s)
  {
    if b.Some? {
      LessIsTotal(id, b.value.s);
      LessIsStrict(id, b.value.s);
    }
  }

  /** What an offset and a limit cut from the documents the cursor keeps. */
  lemma OffsetIsSlice(docs: seq<Doc>, q: Query)
    ensures var kept := ApplyCursor(SortById(docs), q);
            var from := if q.offset.Some? then q.offset.value else 0;
            var page := List(docs, q);
            && |page| == (var left := if from <= |kept| then |kept| - from else 0;
                          if q.limit.Some? && q.limit.value < left then q.limit.value else left)
            && forall i :: 0 <= i < |page| ==> page[i] == kept[from + i]
  {}

  /** Two offset pages in a row are the one page that spans them. */
  lemma OffsetPagesJoin(docs: seq<Doc>, q: Query, from: nat, m: nat, n: nat)
    ensures List(docs, q.(offset := Some(from), limit := Some(m)))
            + List(docs, q.(offset := Some(from + m), limit := Some(n)))
            == List(docs, q.(offset := Some(from), limit := Some(m + n)))
  {
    var kept := ApplyCursor(SortById(docs), q);
    SameCursor(SortById(docs), q, q.(offset := Some(from), limit := Some(m)));
    SameCursor(SortById(docs), q, q.(offset := Some(from + m), limit := Some(n)));
    SameCursor(SortById(docs), q, q.(offset := Some(from), limit := Some(m + n)));
    PagesJoin(kept, q, from, m, n);
  }

  lemma {:induction false} SameCursor(docs: seq<Doc>, q: Query, r: Query)
    requires q.startAt == r.startAt && q.startAfter == r.startAfter && q.endAt == r.endAt && q.endBefore == r.endBefore
    ensures ApplyCursor(docs, q) == ApplyCursor(docs, r)
  {
    if docs != [] {
      SameCursor(docs[1..], q, r);
    }
  }

  lemma PagesJoin(kept: seq<Doc>, q: Query, from: nat, m: nat, n: nat)
    ensures ApplyOffsetLimit(kept, q.(offset := Some(from), limit := Some(m)))
            + ApplyOffsetLimit(kept, q.(offset := Some(from + m), limit := Some(n)))
            == ApplyOffsetLimit(kept, q.(offset := Some(from), limit := Some(m + n)))
  {
    var a := if from < |kept| then from else |kept|;
    var b := if from + m < |kept| then from + m else |kept|;
    var c := if from + m + n < |kept| then from + m + n else |kept|;
    assert ApplyOffsetLimit(kept, q.(offset := Some(from), limit := Some(m))) == kept[a..b];
    assert ApplyOffsetLimit(kept, q.(offset := Some(from + m), limit := Some(n))) == kept[b..c];
    assert ApplyOffsetLimit(kept, q.(offset := Some(from), limit := Some(m + n))) == kept[a..c];
  }

  // ---------- The walk ----------

  /** The query of one page. */
  function PageQuery(after: Option<string>, page: nat): Query {
    Query(None, if after.Some? then Some(Str(after.value)) else None, None, None, None, Some(page))
  }

  /** The cursor accepts the documents from index `k` on, and no other. */
  ghost predicate SplitsAt(docs: seq<Doc>, q: Query, k: nat) {
    forall i :: 0 <= i < |docs| ==> (MatchesCursor(docs[i], q) <==> i >= k)
  }

  lemma {:induction false} CursorKeepsRest(docs: seq<Doc>, q: Query, k: nat)
    requires k <= |docs| && SplitsAt(docs, q, k)
    ensures ApplyCursor(docs, q) == docs[k..]
  {
    if docs != [] {
      var rest, j := docs[1..], if k == 0 then 0 else k - 1;
      forall i | 0 <= i < |rest| ensures MatchesCursor(rest[i], q) <==> i >= j {
        assert rest[i] == docs[i + 1];
      }
      CursorKeepsRest(rest, q, j);
      assert MatchesCursor(docs[0], q) <==> k == 0;
    }
  }

  lemma MatchesAfter(d: Doc, after: string, page: nat)
    ensures MatchesCursor(d, PageQuery(Some(after), page)) <==> Above(CursorValue(d), after)
  {
    var x := CursorValue(d);
    if x.Str? {
      LessIsTotal(after, x.s);
      LessIsStrict(after, x.s);
    }
  }

  /** The bound a walk passes on after the first `k` documents. */
  function AfterFirst(sorted: seq<Doc>, k: nat): Option<string>
    requires k <= |sorted|
  {
    if k == 0 then None else Some(sorted[k - 1].id)
  }

  lemma AscendingAt(sorted: seq<Doc>, j: nat, i: nat)
    requires Ascending(sorted) && j < |sorted| && i < |sorted|
    ensures Less(sorted[j].id, sorted[i].id) <==> j < i
  {
    LessIsStrict(sorted[j].id, sorted[i].id);
  }

  lemma SplitsAfterFirst(sorted: seq<Doc>, k: nat, page: nat)
    requires Ascending(sorted) && CursorsFollowIds(sorted) && k <= |sorted|
    ensures SplitsAt(sorted, PageQuery(AfterFirst(sorted, k), page), k)
  {
    if k > 0 {
      forall i | 0 <= i < |sorted|
        ensures MatchesCursor(sorted[i], PageQuery(Some(sorted[k - 1].id), page)) <==> i >= k
      {
        MatchesAfter(sorted[i], sorted[k - 1].id, page);
        AscendingAt(sorted, k - 1, i);
        assert sorted[i] in sorted && sorted[k - 1] in sorted;
      }
    }
  }

  lemma PageLimit(rest: seq<Doc>, after: Option<string>, page: nat)
    ensures ApplyOffsetLimit(rest, PageQuery(after, page)) == Front(rest, page)
  {
    assert rest[0..] == rest;
  }

  lemma SameDocs(docs: seq<Doc>)
    requires DistinctIds(docs)
    ensures Ascending(SortById(docs)) && multiset(SortById(docs)) == multiset(docs) && |SortById(docs)| == |docs|
    ensures forall d :: d in SortById(docs) <==> d in docs
  {
    SortAscends(docs);
    forall d ensures d in SortById(docs) <==> d in docs {
      assert d in multiset(SortById(docs)) <==> d in multiset(docs);
    }
    assert |SortById(docs)| == |multiset(SortById(docs))| == |multiset(docs)| == |docs|;
  }

  /** The page after a bound. */
  type Fetch = Option<string> -> seq<Doc>

  function Pages(docs: seq<Doc>, page: nat): Fetch {
    after => List(docs, PageQuery(after, page))
  }

  /** The first `page` documents. */
  function Front(docs: seq<Doc>, page: nat): seq<Doc> {
    docs[..if page < |docs| then page else |docs|]
  }

  /** The page after the first `k` documents is the next slice. */
  predicate IsNextSlice(fetch: Fetch, sorted: seq<Doc>, page: nat, k: nat) {
    k <= |sorted| ==> fetch(AfterFirst(sorted, k)) == Front(sorted[k..], page)
  }

  /** For the list in id order. */
  predicate PageIsRight(docs: seq<Doc>, k: nat, page: nat) {
    IsNextSlice(Pages(docs, page), SortById(docs), page, k)
  }

  lemma PageIsNextSlice(docs: seq<Doc>, k: nat, page: nat)
    requires DistinctIds(docs) && CursorsFollowIds(docs)
    ensures PageIsRight(docs, k, page)
  {
    SameDocs(docs);
    if k <= |SortById(docs)| {
      SplitsAfterFirst(SortById(docs), k, page);
      CursorKeepsRest(SortById(docs), PageQuery(AfterFirst(SortById(docs), k), page), k);
      PageLimit(SortById(docs)[k..], AfterFirst(SortById(docs), k), page);
    }
  }

  /** The first document that the cursor keeps is the first it accepts. */
  lemma {:induction false} FirstKept(docs: seq<Doc>, q: Query, k: nat)
    requires Ascending(docs) && k <= |docs|
    requires if k == |docs| then ApplyCursor(docs, q) == []
             else ApplyCursor(docs, q) != [] && ApplyCursor(docs, q)[0] == docs[k]
    ensures forall i :: 0 <= i < k ==> !MatchesCursor(docs[i], q)
    ensures k < |docs| ==> MatchesCursor(docs[k], q)
  {
    if docs != [] && MatchesCursor(docs[0], q) {
      if k > 0 {
        LessIsStrict(docs[0].id, docs[k].id);
        assert false;
      }
    } else if docs != [] {
      var rest := docs[1..];
      if k == 0 {
        KeptIsPart(rest, q);
        var i :| 0 <= i < |rest| && rest[i] == docs[0];
        assert Less(docs[0].id, docs[i + 1].id);
        LessIsStrict(docs[0].id, docs[0].id);
        assert false;
      } else {
        FirstKept(rest, q, k - 1);
        forall i | 0 <= i < k ensures !MatchesCursor(docs[i], q) {
          if i > 0 { assert docs[i] == rest[i - 1]; }
        }
      }
    }
  }

  lemma {:induction false} KeptIsPart(docs: seq<Doc>, q: Query)
    ensures ApplyCursor(docs, q) != [] ==> ApplyCursor(docs, q)[0] in docs
  {
    if docs != [] && !MatchesCursor(docs[0], q) {
      KeptIsPart(docs[1..], q);
    }
  }

  /** A right page after `sorted[j]` tells that the next document, and none up to `j`, lies above that id. */
  lemma RightPageTells(docs: seq<Doc>, sorted: seq<Doc>, j: nat, page: nat)
    requires sorted == SortById(docs) && Ascending(sorted) && j < |sorted| && page > 0
    requires PageIsRight(docs, j + 1, page)
    ensures forall i :: 0 <= i <= j ==> !Above(CursorValue(sorted[i]), sorted[j].id)
    ensures j + 1 < |sorted| ==> Above(CursorValue(sorted[j + 1]), sorted[j].id)
  {
    var after := sorted[j].id;
    var kept := ApplyCursor(sorted, PageQuery(Some(after), page));
    PageLimit(kept, Some(after), page);
    var rows := Front(kept, page);
    assert rows == Pages(docs, page)(AfterFirst(sorted, j + 1)) == Front(sorted[j + 1..], page);
    if j + 1 < |sorted| {
      assert rows[0] == sorted[j + 1] == kept[0];
    }
    FirstKept(sorted, PageQuery(Some(after), page), j + 1);
    forall i | 0 <= i < |sorted|
      ensures MatchesCursor(sorted[i], PageQuery(Some(after), page)) <==> Above(CursorValue(sorted[i]), after)
    {
      MatchesAfter(sorted[i], after, page);
    }
  }

  lemma AboveSmaller(x: Json, a: string, b: string)
    requires Above(x, b) && (a == b || Less(a, b))
    ensures Above(x, a)
  {
    if a != b {
      LessIsTransitive(a, b, x.s);
    }
  }

  lemma RightPagesTell(docs: seq<Doc>, sorted: seq<Doc>, i: nat, j: nat, page: nat)
    requires sorted == SortById(docs) && Ascending(sorted) && i < |sorted| && j < |sorted| && page > 0
    requires forall k :: PageIsRight(docs, k, page)
    ensures Above(CursorValue(sorted[i]), sorted[j].id) <==> Less(sorted[j].id, sorted[i].id)
  {
    AscendingAt(sorted, j, i);
    if i <= j {
      RightPageTells(docs, sorted, j, page);
    } else {
      AscendingAt(sorted, j, i - 1);
      RightPageTells(docs, sorted, i - 1, page);
      AboveSmaller(CursorValue(sorted[i]), sorted[j].id, sorted[i - 1].id);
    }
  }

  /** For distinct ids and any page size, every page is the next slice exactly when each cursor value lies above the
      smaller ids and no other. */
  lemma PagesRightIff(docs: seq<Doc>, page: nat)
    requires DistinctIds(docs) && page > 0
    ensures (forall k :: PageIsRight(docs, k, page)) <==> CursorsFollowIds(docs)
  {
    var sorted := SortById(docs);
    SameDocs(docs);
    if CursorsFollowIds(docs) {
      forall k ensures PageIsRight(docs, k, page) {
        PageIsNextSlice(docs, k, page);
      }
    } else if forall k :: PageIsRight(docs, k, page) {
      forall a, b | a in docs && b in docs ensures Above(CursorValue(a), b.id) <==> Less(b.id, a.id) {
        assert a in sorted && b in sorted;
        var i :| 0 <= i < |sorted| && sorted[i] == a;
        var j :| 0 <= j < |sorted| && sorted[j] == b;
        RightPagesTell(docs, sorted, i, j, page);
      }
    }
  }

  /** Bodies with no `id` field, or with the document's own id in it, are paged rightly. */
  lemma NoOtherIdFollows(docs: seq<Doc>)
    requires NoOtherId(docs)
    ensures CursorsFollowIds(docs)
  {
    forall a, b | a in docs && b in docs ensures Above(CursorValue(a), b.id) <==> Less(b.id, a.id) {
      assert CursorValue(a) == Str(a.id);
    }
  }

  // ---------- The walk from page to page ----------

  /** What a walk collects from a bound on, within `pages` pages; None when it has not ended by then. */
  function Walk(fetch: Fetch, page: nat, after: Option<string>, pages: nat): Option<seq<Doc>>
    requires page > 0
    decreases pages
  {
    if pages == 0 then None
    else
      var rows := fetch(after);
      if |rows| < page then Some(rows)
      else
        var rest := Walk(fetch, page, Some(rows[|rows| - 1].id), pages - 1);
        if rest.None? then None else Some(rows + rest.value)
  }

  /** The walk ends and has collected every document in id order. */
  ghost predicate WalkIsRight(docs: seq<Doc>, page: nat)
    requires page > 0
  {
    exists pages :: Walk(Pages(docs, page), page, None, pages) == Some(SortById(docs))
  }

  lemma {:induction false} WalkFollows(fetch: Fetch, sorted: seq<Doc>, page: nat, k: nat, pages: nat)
    requires page > 0 && k <= |sorted| < k + pages && forall j :: IsNextSlice(fetch, sorted, page, j)
    ensures Walk(fetch, page, AfterFirst(sorted, k), pages) == Some(sorted[k..])
    decreases pages
  {
    var rows := fetch(AfterFirst(sorted, k));
    assert IsNextSlice(fetch, sorted, page, k);
    if |rows| == page {
      WalkFollows(fetch, sorted, page, k + page, pages - 1);
      assert rows[page - 1] == sorted[k + page - 1];
      assert rows + sorted[k + page..] == sorted[k..];
    } else {
      assert rows == sorted[k..];
    }
  }

  /** A right walk in pages of one shows every page. */
  lemma {:induction false} OneByOne(fetch: Fetch, sorted: seq<Doc>, k: nat, pages: nat, j: nat)
    requires (forall after :: |fetch(after)| <= 1) && k <= j && k <= |sorted|
    requires Walk(fetch, 1, AfterFirst(sorted, k), pages) == Some(sorted[k..])
    ensures IsNextSlice(fetch, sorted, 1, j)
    decreases pages
  {
    var rows := fetch(AfterFirst(sorted, k));
    if rows != [] {
      assert |rows| == 1;
      var rest := Walk(fetch, 1, Some(rows[0].id), pages - 1).value;
      assert rows + rest == sorted[k..];
      assert rows[0] == (rows + rest)[0] == sorted[k];
      assert rest == (rows + rest)[1..] == sorted[k + 1..];
      if j > k {
        OneByOne(fetch, sorted, k + 1, pages - 1, j);
      }
    }
  }

  /** The walk is right for every page size, and already for pages of one, exactly when cursor values follow the
      ids. */
  lemma WalkRightIff(docs: seq<Doc>)
    requires DistinctIds(docs)
    ensures WalkIsRight(docs, 1) <==> CursorsFollowIds(docs)
    ensures (forall page :: page > 0 ==> WalkIsRight(docs, page)) <==> CursorsFollowIds(docs)
  {
    if CursorsFollowIds(docs) {
      forall page | page > 0 ensures WalkIsRight(docs, page) {
        RightWalk(docs, page);
      }
    }
    if WalkIsRight(docs, 1) {
      var pages :| Walk(Pages(docs, 1), 1, None, pages) == Some(SortById(docs));
      forall after ensures |Pages(docs, 1)(after)| <= 1 {
        PageLimit(ApplyCursor(SortById(docs), PageQuery(after, 1)), after, 1);
      }
      forall j ensures PageIsRight(docs, j, 1) {
        OneByOne(Pages(docs, 1), SortById(docs), 0, pages, j);
      }
      PagesRightIff(docs, 1);
    }
  }

  lemma RightWalk(docs: seq<Doc>, page: nat)
    requires DistinctIds(docs) && CursorsFollowIds(docs) && page > 0
    ensures Walk(Pages(docs, page), page, None, |docs| + 1) == Some(SortById(docs))
  {
    SameDocs(docs);
    forall j ensures IsNextSlice(Pages(docs, page), SortById(docs), page, j) {
      PageIsNextSlice(docs, j, page);
    }
    WalkFollows(Pages(docs, page), SortById(docs), page, 0, |docs| + 1);
  }

  /** The loop of the walk, for one that ends: pages until one comes back short or empty. */
  method WalkPages(fetch: Fetch, page: nat, ghost pages: nat) returns (visited: seq<Doc>)
    requires page > 0 && Walk(fetch, page, None, pages).Some?
    ensures Some(visited) == Walk(fetch, page, None, pages)
  {
    ghost var left, all := pages, Walk(fetch, page, None, pages).value;
    visited := [];
    var after: Option<string> := None;
    while true
      invariant Walk(fetch, page, after, left).Some?
      invariant visited + Walk(fetch, page, after, left).value == all
      decreases left
    {
      var rows := fetch(after);
      if rows == [] {
        assert visited + [] == visited;
        return;
      }
      visited, after := visited + rows, Some(rows[|rows| - 1].id);
      if |rows| < page {
        return;
      }
      left := left - 1;
    }
  }

  /** The walk of the benchmark: an empty walk is an error. It ends, and has visited every document exactly once,
      in id order. */
  method CursorWalk(docs: seq<Doc>, page: nat) returns (total: Result<nat, string>, visited: seq<Doc>)
    requires page > 0 && DistinctIds(docs) && CursorsFollowIds(docs)
    ensures visited == SortById(docs) && multiset(visited) == multiset(docs) && Ascending(visited)
    ensures total == if docs == [] then Err("cursor walk empty") else Ok(|docs|)
  {
    SameDocs(docs);
    RightWalk(docs, page);
    visited := WalkPages(Pages(docs, page), page, |docs| + 1);
    total := if |visited| == 0 then Err("cursor walk empty") else Ok(|visited|);
  }

  /** A body field named `id` can trap the walk: here every page is the same full page, and no walk ends. */
  lemma BodyIdTrapsWalk(pages: nat)
    ensures var docs := [Doc("a", map["id" := Str("z")])];
            && DistinctIds(docs) && Walk(Pages(docs, 1), 1, None, pages) == None && !CursorsFollowIds(docs)
  {
    var docs := [Doc("a", map["id" := Str("z")])];
    assert docs[1..] == [] && SortById(docs[1..]) == [] && SortById(docs) == docs;
    assert Less("a", "z");
    assert docs[0] in docs && Above(CursorValue(docs[0]), "a");
    LessIsStrict("a", "a");
    MatchesAfter(docs[0], "a", 1);
    assert ApplyCursor(docs, PageQuery(Some("a"), 1)) == docs && ApplyCursor(docs, PageQuery(None, 1)) == docs;
    NeverEnds(Pages(docs, 1), docs, pages, None);
  }

  lemma {:induction false} NeverEnds(fetch: Fetch, docs: seq<Doc>, pages: nat, after: Option<string>)
    requires |docs| == 1 && fetch(None) == docs == fetch(Some(docs[0].id))
    requires after.None? || after == Some(docs[0].id)
    ensures Walk(fetch, 1, after, pages) == None
    decreases pages
  {
    if pages > 0 {
      NeverEnds(fetch, docs, pages - 1, Some(docs[0].id));
    }
  }
}
