/** Merging an alias's query with the request's. */
module AliasQuery {
  import opened Values
  import opened Text

  function KeyOf(pair: string): string { Split(pair, '=')[0] }

  /** The pairs whose key passes, in order. */
  function Filter(pairs: seq<string>, keep: string -> bool): seq<string> {
    if pairs == [] then []
    else
      var last := pairs[|pairs| - 1];
      Filter(pairs[..|pairs| - 1], keep) + (if keep(KeyOf(last)) then [last] else [])
  }

  predicate HasKey(pairs: seq<string>, k: string) {
    exists i :: 0 <= i < |pairs| && KeyOf(pairs[i]) == k
  }

  const DB_KEY := "db"

  /** Surviving alias pairs, then the request's; the request wins except for `db`. */
  function MergeQuery(aliasQ: string, reqQ: Option<string>): string {
    var req := if reqQ.Some? then reqQ.value else "";
    if aliasQ == "" then req
    else if req == "" then aliasQ
    else
      var mine, theirs := Split(aliasQ, '&'), Split(req, '&');
      var pinsDb := HasKey(mine, DB_KEY);
      Join(Filter(mine, k => k == DB_KEY || !HasKey(theirs, k)) + Filter(theirs, k => !pinsDb || k != DB_KEY), '&')
  }

  // ---------- Reading a query ----------

  /** The last pair with the key: duplicate keys read last-wins. */
  function LastPair(pairs: seq<string>, k: string): Option<string> {
    if pairs == [] then None
    else if KeyOf(pairs[|pairs| - 1]) == k then Some(pairs[|pairs| - 1])
    else LastPair(pairs[..|pairs| - 1], k)
  }

  function Read(query: string, k: string): Option<string> {
    LastPair(Split(query, '&'), k)
  }

  lemma {:induction false} LastOfConcat(a: seq<string>, b: seq<string>, k: string)
    ensures LastPair(a + b, k) == if LastPair(b, k).Some? then LastPair(b, k) else LastPair(a, k)
    decreases |b|
  {
    if b == [] {
      assert a + b == a;
    } else {
      assert (a + b)[..|a + b| - 1] == a + b[..|b| - 1];
      LastOfConcat(a, b[..|b| - 1], k);
    }
  }

  lemma {:induction false} LastOfFilter(pairs: seq<string>, keep: string -> bool, k: string)
    ensures LastPair(Filter(pairs, keep), k) == if keep(k) then LastPair(pairs, k) else None
    ensures forall p :: p in Filter(pairs, keep) ==> p in pairs
    decreases |pairs|
  {
    if pairs != [] {
      var last, init := pairs[|pairs| - 1], pairs[..|pairs| - 1];
      LastOfFilter(init, keep, k);
      var tail := if keep(KeyOf(last)) then [last] else [];
      LastOfConcat(Filter(init, keep), tail, k);
      assert LastPair(tail, k) == if keep(KeyOf(last)) && KeyOf(last) == k then Some(last) else None by {
        assert [last][..0] == [];
      }
    }
  }

  lemma {:induction false} LastIffHasKey(pairs: seq<string>, k: string)
    ensures LastPair(pairs, k).Some? <==> HasKey(pairs, k)
  {
    if pairs != [] {
      var init := pairs[..|pairs| - 1];
      LastIffHasKey(init, k);
      if HasKey(init, k) {
        var i :| 0 <= i < |init| && KeyOf(init[i]) == k;
        assert KeyOf(pairs[i]) == k;
      }
      if HasKey(pairs, k) {
        var i :| 0 <= i < |pairs| && KeyOf(pairs[i]) == k;
        assert i < |init| ==> KeyOf(init[i]) == k;
      }
    }
  }

  /** A pair's key is what stands before its first `=`, or all of it. */
  lemma KeyOfPair(k: string, v: string)
    requires '=' !in k
    ensures KeyOf(k + "=" + v) == k && KeyOf(k) == k
  {
    SplitAtSeparator(k, v, '=');
    SplitOfPart(k, '=');
    assert k + ['='] + v == k + "=" + v;
  }

  lemma EmptyReadsNothing(k: string)
    requires k != ""
    ensures Read("", k) == None
  {
    var pairs := Split("", '&');
    assert pairs == [""] && pairs[..0] == [] && KeyOf(pairs[0]) == "";
    assert LastPair(pairs, k) == LastPair(pairs[..0], k);
  }

  /** What a reader of the merged query sees: the request's pair, else the alias's; for `db` the alias's first. */
  lemma MergedReads(aliasQ: string, reqQ: Option<string>, k: string)
    requires k != ""
    ensures var req := if reqQ.Some? then reqQ.value else "";
            var mine, theirs := Read(aliasQ, k), Read(req, k);
            Read(MergeQuery(aliasQ, reqQ), k) ==
            if k == "db" then (if mine.Some? then mine else theirs)
            else (if theirs.Some? then theirs else mine)
  {
    var req := if reqQ.Some? then reqQ.value else "";
    EmptyReadsNothing(k);
    if aliasQ != "" && req != "" {
      var mine, theirs := Split(aliasQ, '&'), Split(req, '&');
      var pinsDb := HasKey(mine, DB_KEY);
      var keepMine := (x: string) => x == DB_KEY || !HasKey(theirs, x);
      var keepTheirs := (x: string) => !pinsDb || x != DB_KEY;
      var a, b := Filter(mine, keepMine), Filter(theirs, keepTheirs);
      LastOfFilter(mine, keepMine, k);
      LastOfFilter(theirs, keepTheirs, k);
      LastIffHasKey(theirs, k);
      LastIffHasKey(mine, k);
      LastOfConcat(a, b, k);
      MergedPartsSplit(aliasQ, req, a + b);
      SomethingSurvives(mine, theirs);
      assert MergeQuery(aliasQ, reqQ) == Join(a + b, '&');
    }
  }

  lemma MergedPartsSplit(aliasQ: string, req: string, parts: seq<string>)
    requires forall p :: p in parts ==> p in Split(aliasQ, '&') || p in Split(req, '&')
    ensures parts != [] ==> Split(Join(parts, '&'), '&') == parts
  {
    PartsHaveNoSeparator(aliasQ, '&');
    PartsHaveNoSeparator(req, '&');
    if parts != [] {
      SplitOfJoin(parts, '&');
    }
  }

  /** Either the alias's `db` pair or every request pair stays. */
  lemma SomethingSurvives(mine: seq<string>, theirs: seq<string>)
    requires theirs != []
    ensures var pinsDb := HasKey(mine, DB_KEY);
            Filter(mine, k => k == DB_KEY || !HasKey(theirs, k)) + Filter(theirs, k => !pinsDb || k != DB_KEY) != []
  {
    var pinsDb := HasKey(mine, DB_KEY);
    var keepMine, keepTheirs := (x: string) => x == DB_KEY || !HasKey(theirs, x), (x: string) => !pinsDb || x != DB_KEY;
    LastOfFilter(mine, keepMine, DB_KEY);
    LastIffHasKey(mine, DB_KEY);
    var k := KeyOf(theirs[|theirs| - 1]);
    LastOfFilter(theirs, keepTheirs, k);
  }
}
