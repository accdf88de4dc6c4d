/** JSON alias templates: what a substitution changes, which slots it leaves, and when the structure survives. */
module AliasStructure {
  import opened Values
  import opened AliasTemplate
  import opened AliasLaws

  // ---------- What the JSON substituter changes ----------

  /** Whether the text of a literal ends in a backslash that escapes what follows. */
  function EndsEscaped(s: string, esc: bool): bool {
    if s == "" then esc else EndsEscaped(s[1..], !esc && s[0] == '\\')
  }

  /** Text of a literal without a brace and without the closing quote. */
  predicate Plain(s: string) {
    '{' !in s && LiteralEnd(s, false).None?
  }

  /** What is copied at the head of such a text: a character, or a backslash with the one it escapes. */
  lemma PlainStep(lead: string) returns (n: nat)
    requires Plain(lead) && !EndsEscaped(lead, false) && lead != ""
    ensures 0 < n <= |lead| && Plain(lead[n..]) && !EndsEscaped(lead[n..], false)
    ensures if lead[0] == '\\' then n == 2 else n == 1 && lead[0] != '"' && lead[0] != '{'
  {
    n := if lead[0] == '\\' then 2 else 1;
    if n == 2 {
      assert EndsEscaped("", true);
      assert lead[1..][1..] == lead[2..] && LiteralEnd(lead[1..], true).None?;
    }
  }

  lemma {:induction false} PlainIsVerbatim(lead: string, rest: string, caps: Captures)
    requires Plain(lead) && !EndsEscaped(lead, false)
    ensures SubstituteInside(lead + rest, caps) == lead + SubstituteInside(rest, caps)
    decreases |lead|
  {
    if lead == "" {
      assert lead + rest == rest;
    } else {
      var n := PlainStep(lead);
      CopyStep(lead, rest, n, caps);
      PlainIsVerbatim(lead[n..], rest, caps);
      Shift(lead[..n], lead[n..], SubstituteInside(rest, caps));
    }
  }

  lemma CopyStep(lead: string, rest: string, n: nat, caps: Captures)
    requires 0 < n <= |lead|
    requires if lead[0] == '\\' then n == 2 else n == 1 && lead[0] != '"' && lead[0] != '{'
    ensures SubstituteInside(lead + rest, caps) == lead[..n] + SubstituteInside(lead[n..] + rest, caps)
    ensures lead == lead[..n] + lead[n..]
  {
    assert (lead + rest)[..n] == lead[..n] && (lead + rest)[n..] == lead[n..] + rest;
  }

  /** The escaping backslash is the last character, and it is not itself escaped. */
  lemma {:induction false} LastEscapes(lead: string, esc: bool)
    requires EndsEscaped(lead, esc) && lead != ""
    ensures lead[|lead| - 1] == '\\' && !EndsEscaped(lead[..|lead| - 1], esc)
  {
    if |lead| > 1 {
      LastEscapes(lead[1..], !esc && lead[0] == '\\');
      assert lead[..|lead| - 1][1..] == lead[1..][..|lead| - 2];
    }
  }

  lemma {:induction false} NoEndInPrefix(s: string, esc: bool, n: nat)
    requires n <= |s| && (LiteralEnd(s, esc).Some? ==> n <= LiteralEnd(s, esc).value)
    ensures LiteralEnd(s[..n], esc).None?
  {
    if n > 0 {
      NoEndInPrefix(s[1..], !esc && s[0] == '\\', n - 1);
      assert s[..n][1..] == s[1..][..n - 1];
    }
  }

  lemma CopyEscaped(rest: string, caps: Captures)
    ensures SubstituteInside("\\" + ("{" + rest), caps) == "\\" + ("{" + SubstituteInside(rest, caps))
  {
    var t := "\\" + ("{" + rest);
    assert t[..2] == "\\{" && t[2..] == rest;
  }

  /** An escaped brace is copied, and the substituter goes on behind it. */
  lemma EscapedBrace(lead: string, rest: string, caps: Captures)
    requires Plain(lead) && EndsEscaped(lead, false)
    ensures SubstituteInside(lead + ("{" + rest), caps) == lead + ("{" + SubstituteInside(rest, caps))
  {
    LastEscapes(lead, false);
    var init := lead[..|lead| - 1];
    NoEndInPrefix(lead, false, |lead| - 1);
    assert lead == init + "\\";
    Shift(init, "\\", "{" + rest);
    PlainIsVerbatim(init, "\\" + ("{" + rest), caps);
    CopyEscaped(rest, caps);
    Shift(init, "\\", "{" + SubstituteInside(rest, caps));
  }

  lemma UnescapedBrace(lead: string, name: string, rest: string, caps: Captures)
    requires Plain(lead) && !EndsEscaped(lead, false) && '}' !in name
    ensures SubstituteInside(lead + ("{" + (name + ("}" + rest))), caps) == lead +
            if name in caps then Encode(caps[name]) + SubstituteInside(rest, caps)
            else "{" + SubstituteInside(name + ("}" + rest), caps)
  {
    PlainIsVerbatim(lead, "{" + (name + ("}" + rest)), caps);
    AfterName(name, rest);
  }

  /** Inside a literal, the first slot after a text: with its brace escaped the brace stays; else a slot that names a
      capture is replaced by it, encoded, and one that does not stays. */
  lemma InsideSlot(lead: string, name: string, rest: string, caps: Captures)
    requires Plain(lead) && '}' !in name
    ensures SubstituteInside(lead + ("{" + (name + ("}" + rest))), caps) == lead +
            if !EndsEscaped(lead, false) && name in caps then Encode(caps[name]) + SubstituteInside(rest, caps)
            else "{" + SubstituteInside(name + ("}" + rest), caps)
  {
    if EndsEscaped(lead, false) {
      EscapedBrace(lead, name + ("}" + rest), caps);
    } else {
      UnescapedBrace(lead, name, rest, caps);
    }
  }

  /** Text outside literals is copied, braces and all. */
  lemma {:induction false} OutsideIsVerbatim(t: string, rest: string, caps: Captures)
    requires '"' !in t
    ensures SubstituteOutside(t + rest, caps) == t + SubstituteOutside(rest, caps)
  {
    if t == "" {
      assert t + rest == rest;
    } else {
      assert (t + rest)[1..] == t[1..] + rest && t == [t[0]] + t[1..];
      OutsideIsVerbatim(t[1..], rest, caps);
    }
  }

  // ---------- Structure survives ----------

  /** The text outside string literals, with the quotes that delimit them. */
  function Skeleton(s: string, instr: bool, esc: bool): string {
    if s == "" then ""
    else if instr then
      if esc then Skeleton(s[1..], true, false)
      else if s[0] == '\\' then Skeleton(s[1..], true, true)
      else if s[0] == '"' then "\"" + Skeleton(s[1..], false, false)
      else Skeleton(s[1..], true, false)
    else [s[0]] + Skeleton(s[1..], s[0] == '"', false)
  }

  /** Nothing shows until the literal closes. */
  lemma {:induction false} SkeletonOfLiteral(s: string, esc: bool)
    requires LiteralEnd(s, esc).Some?
    ensures Skeleton(s, true, esc) == "\"" + Skeleton(s[LiteralEnd(s, esc).value + 1..], false, false)
  {
    if !(!esc && s[0] == '"') {
      SkeletonOfLiteral(s[1..], !esc && s[0] == '\\');
      var n := LiteralEnd(s, esc).value;
      assert s[1..][n..] == s[n + 1..];
    }
  }

  lemma {:induction false} SkeletonOfInert(x: string, rest: string)
    requires Inert(x)
    ensures Skeleton(x + rest, true, false) == Skeleton(rest, true, false)
  {
    if x == "" {
      assert x + rest == rest;
    } else {
      assert (x + rest)[1..] == x[1..] + rest;
      SkeletonOfInert(x[1..], rest);
    }
  }

  /** Past a closing brace inside a literal the scan is unescaped, and the literal ends where it did. */
  lemma {:induction false} LiteralEndAfterBrace(s: string, esc: bool, j: nat)
    requires LiteralEnd(s, esc).Some? && j < LiteralEnd(s, esc).value && s[j] == '}'
    ensures LiteralEnd(s[j + 1..], false) == Some(LiteralEnd(s, esc).value - j - 1)
  {
    if j > 0 {
      LiteralEndAfterBrace(s[1..], !esc && s[0] == '\\', j - 1);
      assert s[1..][j..] == s[j + 1..];
    }
  }

  /** `piece` shows nothing inside a literal. */
  ghost predicate Silent(piece: string) {
    forall rest :: Skeleton(piece + rest, true, false) == Skeleton(rest, true, false)
  }

  /** A backslash and the character after it. */
  lemma EscapeStep(t: string, caps: Captures)
    requires LiteralEnd(t, false).Some? && t[0] == '\\'
    ensures 2 <= LiteralEnd(t, false).value && LiteralEnd(t[2..], false) == Some(LiteralEnd(t, false).value - 2)
    ensures SubstituteInside(t, caps) == t[..2] + SubstituteInside(t[2..], caps) && Silent(t[..2])
  {
    assert t[1..][1..] == t[2..];
    assert LiteralEnd(t[1..], true) == Some(LiteralEnd(t, false).value - 1);
    forall rest { SkeletonOfPair(t, rest); }
  }

  /** A slot that names a capture. */
  lemma SlotStep(t: string, caps: Captures) returns (k: nat, piece: string)
    requires LiteralEnd(t, false).Some? && t[0] == '{' && SlotAt(t, caps).Some?
    requires BracesClose(t[..LiteralEnd(t, false).value])
    ensures 0 < k <= LiteralEnd(t, false).value && LiteralEnd(t[k..], false) == Some(LiteralEnd(t, false).value - k)
    ensures SubstituteInside(t, caps) == piece + SubstituteInside(t[k..], caps) && Silent(piece)
  {
    var n := LiteralEnd(t, false).value;
    var (m, value) := SlotAt(t, caps).value;
    k, piece := m, Encode(value);
    assert t[..n][0] == '{' && ClosesAfter(t[..n], 0);
    FirstIsBefore(t, '}', n);
    LiteralEndAfterBrace(t, false, m - 1);
    EncodeIsInert(value);
    forall rest { SkeletonOfInert(piece, rest); }
  }

  /** What the substituter does next inside a literal, up to the closing quote: it replaces `k` characters
      by a silent piece, and the literal still ends where it did. */
  lemma InsideStep(t: string, caps: Captures) returns (k: nat, piece: string)
    requires LiteralEnd(t, false).Some? && t[0] != '"' && BracesClose(t[..LiteralEnd(t, false).value])
    ensures 0 < k <= LiteralEnd(t, false).value
    ensures LiteralEnd(t[k..], false) == Some(LiteralEnd(t, false).value - k)
    ensures SubstituteInside(t, caps) == piece + SubstituteInside(t[k..], caps) && Silent(piece)
  {
    if t[0] == '\\' {
      k, piece := 2, t[..2];
      EscapeStep(t, caps);
    } else if t[0] == '{' && SlotAt(t, caps).Some? {
      k, piece := SlotStep(t, caps);
    } else {
      k, piece := 1, [t[0]];
      forall rest ensures Skeleton(piece + rest, true, false) == Skeleton(rest, true, false) {
        assert (piece + rest)[1..] == rest;
      }
    }
  }

  /** Literals show only what follows them. */
  lemma SameTail(a: string, b: string)
    requires LiteralEnd(a, false).Some? && LiteralEnd(b, false).Some?
    requires a[LiteralEnd(a, false).value + 1..] == b[LiteralEnd(b, false).value + 1..]
    ensures Skeleton(a, true, false) == Skeleton(b, true, false)
  {
    SkeletonOfLiteral(a, false);
    SkeletonOfLiteral(b, false);
  }

  lemma SkipCloses(t: string, n: nat, k: nat)
    requires k <= n <= |t| && BracesClose(t[..n])
    ensures BracesClose(t[k..][..n - k])
  {
    assert t[k..][..n - k] == t[..n][k..];
    ClosedSuffix(t[..n], k);
  }

  /** Inside a literal whose slots all close in it, substitution changes only the literal. */
  lemma {:induction false} InsideKeepsSkeleton(t: string, caps: Captures, params: seq<string>)
    requires LiteralEnd(t, false).Some? && BracesClose(t[..LiteralEnd(t, false).value])
    requires CheckJson(t[LiteralEnd(t, false).value + 1..], params).Ok?
    ensures Skeleton(SubstituteInside(t, caps), true, false) == Skeleton(t, true, false)
    decreases |t|
  {
    if t[0] == '"' {
      OutsideKeepsSkeleton(t[1..], caps, params);
      assert ("\"" + SubstituteOutside(t[1..], caps))[1..] == SubstituteOutside(t[1..], caps);
    } else {
      var k, piece := InsideStep(t, caps);
      var n := LiteralEnd(t, false).value;
      SuffixOfSuffix(t, k, n - k + 1);
      SameTail(t[k..], t);
      SkipCloses(t, n, k);
      InsideKeepsSkeleton(t[k..], caps, params);
    }
  }

  lemma SkeletonOfPair(t: string, rest: string)
    requires |t| >= 2 && t[0] == '\\'
    ensures Skeleton(t[..2] + rest, true, false) == Skeleton(rest, true, false)
  {
    var s := t[..2] + rest;
    assert s[0] == '\\' && s[1..] == [t[1]] + rest && s[1..][1..] == rest;
  }

  lemma FirstIsBefore(t: string, c: char, n: nat)
    requires n <= |t| && c in t[..n]
    ensures Find(t, c).Some? && Find(t, c).value < n
  {
    var i :| 0 <= i < n && t[..n][i] == c;
    var found := Find(t, c);
    assert t[i] == c && c in t;
    assert forall j :: 0 <= j < found.value ==> t[..found.value][j] == t[j];
  }

  lemma {:induction false} OutsideKeepsSkeleton(t: string, caps: Captures, params: seq<string>)
    requires CheckJson(t, params).Ok?
    ensures Skeleton(SubstituteOutside(t, caps), false, false) == Skeleton(t, false, false)
    decreases |t|
  {
    if t != "" {
      if t[0] == '"' {
        CheckedSlotsClose(t[1..][..LiteralEnd(t[1..], false).value], params);
        InsideKeepsSkeleton(t[1..], caps, params);
        assert ("\"" + SubstituteInside(t[1..], caps))[1..] == SubstituteInside(t[1..], caps);
      } else {
        OutsideKeepsSkeleton(t[1..], caps, params);
        assert ([t[0]] + SubstituteOutside(t[1..], caps))[1..] == SubstituteOutside(t[1..], caps);
      }
    }
  }

  // ---------- The whole template ----------

  lemma {:induction false} CheckJsonLead(lead: string, json: string, params: seq<string>)
    requires AllWhite(lead)
    ensures CheckJson(lead + json, params) == CheckJson(json, params)
  {
    if lead == "" {
      assert lead + json == json;
    } else {
      assert (lead + json)[1..] == lead[1..] + json && IsWhite(lead[0]);
      CheckJsonLead(lead[1..], json, params);
    }
  }

  lemma {:induction false} LiteralEndTrail(s: string, esc: bool, trail: string)
    requires LiteralEnd(s, esc).Some?
    ensures LiteralEnd(s + trail, esc) == LiteralEnd(s, esc)
  {
    assert (s + trail)[0] == s[0] && (s + trail)[1..] == s[1..] + trail;
    if !(!esc && s[0] == '"') {
      LiteralEndTrail(s[1..], !esc && s[0] == '\\', trail);
    }
  }

  lemma PastLiteral(body: string, trail: string, n: nat)
    requires n < |body|
    ensures (body + trail)[..n] == body[..n] && (body + trail)[n + 1..] == body[n + 1..] + trail
  {}

  lemma {:induction false} CheckJsonTrail(json: string, trail: string, params: seq<string>)
    requires AllWhite(trail) && CheckJson(json, params).Ok?
    ensures CheckJson(json + trail, params).Ok?
    decreases |json|
  {
    if json == "" {
      CheckJsonLead(trail, "", params);
      assert json + trail == trail + "";
    } else {
      assert (json + trail)[0] == json[0] && (json + trail)[1..] == json[1..] + trail;
      if json[0] != '"' {
        CheckJsonTrail(json[1..], trail, params);
      } else {
        var body := json[1..];
        LiteralEndTrail(body, false, trail);
        var n := LiteralEnd(body, false).value;
        PastLiteral(body, trail, n);
        CheckJsonTrail(body[n + 1..], trail, params);
      }
    }
  }

  lemma UntrimmedChecks(value: string, params: seq<string>)
    requires CheckJson(Trim(value), params).Ok?
    ensures CheckJson(value, params).Ok?
  {
    var lead, trail := TrimParts(value);
    var core := Trim(value);
    assert value == lead + (core + trail);
    CheckJsonTrail(core, trail, params);
    CheckJsonLead(lead, core + trail, params);
  }

  /** The brace scan sees only the skeleton. */
  lemma {:induction false} BalanceOfSkeleton(a: string, b: string, depth: nat, instr: bool, escA: bool, escB: bool)
    requires Skeleton(a, instr, escA) == Skeleton(b, instr, escB) && (!instr ==> !escA && !escB)
    ensures Balance(a, depth, instr, escA) == Balance(b, depth, instr, escB)
    decreases |a| + |b|
  {
    if instr && a != "" && (escA || a[0] != '"') {
      BalanceOfSkeleton(a[1..], b, depth, true, !escA && a[0] == '\\', escB);
    } else if instr && b != "" && (escB || b[0] != '"') {
      BalanceOfSkeleton(a, b[1..], depth, true, escA, !escB && b[0] == '\\');
    } else if a != "" {
      assert Skeleton(a, instr, escA)[0] == a[0];
      assert b != "" && Skeleton(b, instr, escB)[0] == b[0];
      var next := a[0] == '"' && !instr;
      assert Skeleton(a[1..], next, false) == Skeleton(a, instr, escA)[1..];
      assert Skeleton(b[1..], next, false) == Skeleton(b, instr, escB)[1..];
      if instr || a[0] == '"' {
        BalanceOfSkeleton(a[1..], b[1..], depth, next, false, false);
      } else if a[0] == '{' {
        BalanceOfSkeleton(a[1..], b[1..], depth + 1, false, false, false);
      } else if a[0] == '}' {
        if depth > 0 {
          BalanceOfSkeleton(a[1..], b[1..], depth - 1, false, false, false);
        }
      } else {
        BalanceOfSkeleton(a[1..], b[1..], depth, false, false, false);
      }
    }
  }

  // ---------- What the brace scan counts ----------

  function Count(s: string, c: char): nat {
    if s == "" then 0 else (if s[0] == c then 1 else 0) + Count(s[1..], c)
  }

  /** On top of `depth` open braces, no prefix closes more than it opens, and all are closed at the end. */
  ghost predicate Nested(k: string, depth: nat) {
    && (forall n :: 0 <= n <= |k| ==> Count(k[..n], '}') <= depth + Count(k[..n], '{'))
    && Count(k, '}') == depth + Count(k, '{')
  }

  lemma CountAfter(c: char, k: string, n: nat, x: char)
    requires n <= |k|
    ensures Count(([c] + k)[..n + 1], x) == (if c == x then 1 else 0) + Count(k[..n], x)
  {
    assert ([c] + k)[..n + 1] == [c] + k[..n] && ([c] + k[..n])[1..] == k[..n];
  }

  /** One more character in front. */
  lemma NestedStep(c: char, k: string, depth: nat)
    ensures Nested([c] + k, depth) <==>
              if c == '{' then Nested(k, depth + 1)
              else if c == '}' then depth > 0 && Nested(k, depth - 1)
              else Nested(k, depth)
  {
    var all := [c] + k;
    forall n | 0 <= n <= |k|
      ensures Count(all[..n + 1], '}') == (if c == '}' then 1 else 0) + Count(k[..n], '}')
      ensures Count(all[..n + 1], '{') == (if c == '{' then 1 else 0) + Count(k[..n], '{')
    {
      CountAfter(c, k, n, '}');
      CountAfter(c, k, n, '{');
    }
    assert all[..|all|] == all && k[..|k|] == k;
    if Nested(all, depth) {
      assert Count(all[..1], '}') <= depth + Count(all[..1], '{');
      assert k[..0] == "";
      forall n | 0 <= n <= |k|
        ensures Count(k[..n], '}') + (if c == '}' then 1 else 0)
                <= depth + (if c == '{' then 1 else 0) + Count(k[..n], '{')
      {
        assert Count(all[..n + 1], '}') <= depth + Count(all[..n + 1], '{');
      }
    } else if c != '}' || depth > 0 {
      if forall n :: 0 <= n <= |all| ==> Count(all[..n], '}') <= depth + Count(all[..n], '{') {
      } else {
        var n :| 0 <= n <= |all| && Count(all[..n], '}') > depth + Count(all[..n], '{');
        assert all[..0] == "";
        assert Count(k[..n - 1], '}') + (if c == '}' then 1 else 0)
            > depth + (if c == '{' then 1 else 0) + Count(k[..n - 1], '{');
      }
    }
  }

  lemma {:induction false} BalanceCounts(s: string, depth: nat, instr: bool, esc: bool)
    requires !instr ==> !esc
    ensures Balance(s, depth, instr, esc) <==>
              Count(Skeleton(s, instr, esc), '"') % 2 == (if instr then 1 else 0)
              && Nested(Skeleton(s, instr, esc), depth)
  {
    if s == "" {
      assert Nested("", depth) <==> depth == 0 by {
        assert ""[..0] == "";
      }
    } else if instr && (esc || s[0] != '"') {
      BalanceCounts(s[1..], depth, true, !esc && s[0] == '\\');
    } else {
      var rest := Skeleton(s[1..], !instr && s[0] == '"', false);
      assert Skeleton(s, instr, esc) == [s[0]] + rest && ([s[0]] + rest)[1..] == rest;
      NestedStep(s[0], rest, depth);
      if s[0] == '{' {
        BalanceCounts(s[1..], depth + 1, false, false);
      } else if s[0] != '}' {
        BalanceCounts(s[1..], depth, !instr && s[0] == '"', false);
      } else if depth > 0 {
        BalanceCounts(s[1..], depth - 1, false, false);
      }
    }
  }

  /** A text is balanced exactly when its last literal closes and, outside literals, no prefix closes more braces than
      it opens and all that open close. */
  lemma BalanceIff(s: string)
    ensures var outside := Skeleton(s, false, false);
            Balance(s, 0, false, false) <==>
              && Count(outside, '"') % 2 == 0 && Count(outside, '{') == Count(outside, '}')
              && forall n :: 0 <= n <= |outside| ==> Count(outside[..n], '}') <= Count(outside[..n], '{')
  {
    BalanceCounts(s, 0, false, false);
  }

  lemma {:induction false} BalanceLead(lead: string, s: string)
    requires AllWhite(lead)
    ensures Balance(lead + s, 0, false, false) == Balance(s, 0, false, false)
  {
    if lead == "" {
      assert lead + s == s;
    } else {
      assert (lead + s)[1..] == lead[1..] + s && IsWhite(lead[0]);
      BalanceLead(lead[1..], s);
    }
  }

  lemma {:induction false} BalanceTrail(s: string, trail: string, depth: nat, instr: bool, esc: bool)
    requires AllWhite(trail) && Balance(s, depth, instr, esc)
    ensures Balance(s + trail, depth, instr, esc)
    decreases |s|
  {
    if s == "" {
      assert s + trail == trail + "";
      BalanceLead(trail, "");
    } else {
      assert (s + trail)[0] == s[0] && (s + trail)[1..] == s[1..] + trail;
      if instr {
        BalanceTrail(s[1..], trail, depth, esc || s[0] == '\\' || s[0] != '"', !esc && s[0] == '\\');
      } else if s[0] == '{' {
        BalanceTrail(s[1..], trail, depth + 1, false, false);
      } else if s[0] == '}' {
        BalanceTrail(s[1..], trail, depth - 1, false, false);
      } else {
        BalanceTrail(s[1..], trail, depth, s[0] == '"', false);
      }
    }
  }

  /** An accepted JSON template with no brace before its `=` keeps, whatever the captures: the head, all text
      outside string literals with the literal boundaries, and the brace balance. */
  lemma StructureSurvives(t: string, params: seq<string>, caps: Captures)
    requires CheckTemplate(t, params).Ok? && JsonValue(t).Some? && '{' !in t[..Find(t, '=').value]
    ensures var head, value := t[..Find(t, '=').value], JsonValue(t).value;
            var out := SubstituteOutside(value, caps);
            && t == head + "=" + value && Substitute(t, caps) == Some(head + "=" + out)
            && Skeleton(out, false, false) == Skeleton(value, false, false)
            && Balance(out, 0, false, false)
  {
    var value := JsonValue(t).value;
    var out := SubstituteOutside(value, caps);
    var lead, trail := TrimParts(value);
    var core := Trim(value);
    assert value == lead + (core + trail);
    UntrimmedChecks(value, params);
    OutsideKeepsSkeleton(value, caps, params);
    BalanceTrail(core, trail, 0, false, false);
    BalanceLead(lead, core + trail);
    BalanceOfSkeleton(value, out, 0, false, false, false);
  }

  // ---------- Which slots are left ----------

  /** An opening brace stands inside a string literal. */
  predicate BraceInside(s: string, instr: bool, esc: bool) {
    s != "" &&
      if instr && (esc || s[0] != '"') then s[0] == '{' || BraceInside(s[1..], true, !esc && s[0] == '\\')
      else BraceInside(s[1..], !instr && s[0] == '"', false)
  }

  /** Some slot of a literal, as the checker scans it, has its brace escaped. */
  predicate EscapedSlot(lit: string)
    decreases |lit|
  {
    var open := Find(lit, '{');
    open.Some? &&
      var tail := lit[open.value..];
      var close := Find(tail, '}');
      close.Some? && (EndsEscaped(lit[..open.value], false) || EscapedSlot(tail[close.value + 1..]))
  }

  /** Some literal has such a slot. */
  predicate SomeEscapedSlot(json: string)
    decreases |json|
  {
    json != "" &&
      if json[0] != '"' then SomeEscapedSlot(json[1..])
      else
        var body := json[1..];
        var end := LiteralEnd(body, false);
        end.Some? && (EscapedSlot(body[..end.value]) || SomeEscapedSlot(body[end.value + 1..]))
  }

  lemma {:induction false} PlainHidesNoBrace(lead: string, esc: bool, rest: string)
    requires '{' !in lead && LiteralEnd(lead, esc).None?
    ensures BraceInside(lead + rest, true, esc) == BraceInside(rest, true, EndsEscaped(lead, esc))
  {
    if lead == "" {
      assert lead + rest == rest;
    } else {
      assert (lead + rest)[1..] == lead[1..] + rest;
      PlainHidesNoBrace(lead[1..], !esc && lead[0] == '\\', rest);
    }
  }

  lemma {:induction false} InertHidesNoBrace(x: string, rest: string)
    requires Inert(x)
    ensures BraceInside(x + rest, true, false) == BraceInside(rest, true, false)
  {
    if x == "" {
      assert x + rest == rest;
    } else {
      assert (x + rest)[1..] == x[1..] + rest;
      InertHidesNoBrace(x[1..], rest);
    }
  }

  lemma {:induction false} EndIsUnescaped(s: string, esc: bool)
    requires LiteralEnd(s, esc).Some?
    ensures !EndsEscaped(s[..LiteralEnd(s, esc).value], esc)
  {
    if !(!esc && s[0] == '"') {
      EndIsUnescaped(s[1..], !esc && s[0] == '\\');
      var n := LiteralEnd(s, esc).value;
      assert s[..n][1..] == s[1..][..n - 1];
    }
  }

  /** The whole text of a literal: it does not close before its end, and can close there. */
  predicate Whole(lit: string) {
    LiteralEnd(lit, false).None? && !EndsEscaped(lit, false)
  }

  /** A literal without slots is copied and shows no brace. */
  lemma NoSlots(lit: string, after: string, caps: Captures)
    requires '{' !in lit && Whole(lit)
    ensures BraceInside(SubstituteInside(lit + ("\"" + after), caps), true, false)
            == BraceInside(SubstituteOutside(after, caps), false, false)
  {
    PlainIsVerbatim(lit, "\"" + after, caps);
    var shown := "\"" + SubstituteOutside(after, caps);
    assert SubstituteInside("\"" + after, caps) == shown by {
      assert ("\"" + after)[1..] == after;
    }
    PlainHidesNoBrace(lit, false, shown);
    assert shown[1..] == SubstituteOutside(after, caps);
  }

  lemma ReplacedSlot(lead: string, name: string, rest: string, caps: Captures)
    requires Plain(lead) && '}' !in name && name in caps && !EndsEscaped(lead, false)
    ensures BraceInside(SubstituteInside(lead + ("{" + (name + ("}" + rest))), caps), true, false)
            == BraceInside(SubstituteInside(rest, caps), true, false)
  {
    var value, shown := Encode(caps[name]), SubstituteInside(rest, caps);
    InsideSlot(lead, name, rest, caps);
    EncodeIsInert(caps[name]);
    InertHidesNoBrace(value, shown);
    PlainHidesNoBrace(lead, false, value + shown);
  }

  lemma EscapedSlotStays(lead: string, name: string, rest: string, caps: Captures)
    requires Plain(lead) && '}' !in name && EndsEscaped(lead, false)
    ensures BraceInside(SubstituteInside(lead + ("{" + (name + ("}" + rest))), caps), true, false)
  {
    var shown := "{" + SubstituteInside(name + ("}" + rest), caps);
    InsideSlot(lead, name, rest, caps);
    PlainHidesNoBrace(lead, false, shown);
  }

  lemma CutSlot(lit: string, open: nat, tail: string, close: nat)
    requires open <= |lit| && tail == lit[open..] && 0 < close < |tail| && tail[0] == '{' && tail[close] == '}'
    ensures lit == lit[..open] + ("{" + (tail[1..close] + ("}" + tail[close + 1..])))
  {
    var rest := "}" + tail[close + 1..];
    assert rest == tail[close..];
    assert tail[1..close] + rest == tail[1..];
    assert "{" + tail[1..] == tail;
  }

  /** What the checker and the scan for escaped slots do at the first slot of a literal. */
  lemma SlotOf(lit: string, params: seq<string>) returns (open: nat, tail: string, close: nat)
    requires CheckSlots(lit, params).Ok? && '{' in lit
    ensures open < |lit| && '{' !in lit[..open] && tail == lit[open..]
    ensures 0 < close < |tail| && tail[0] == '{' && tail[close] == '}' && '}' !in tail[1..close]
    ensures tail[1..close] in params && CheckSlots(tail[close + 1..], params).Ok?
    ensures EscapedSlot(lit) <==> EndsEscaped(lit[..open], false) || EscapedSlot(tail[close + 1..])
  {
    open := Find(lit, '{').value;
    tail := lit[open..];
    close := Find(tail, '}').value;
    assert tail[0] == '{';
  }

  lemma FirstSlot(lit: string, params: seq<string>) returns (lead: string, name: string, rest: string)
    requires CheckSlots(lit, params).Ok? && '{' in lit
    ensures lit == lead + ("{" + (name + ("}" + rest))) && '{' !in lead && '}' !in name
    ensures name in params && CheckSlots(rest, params).Ok?
    ensures EscapedSlot(lit) <==> EndsEscaped(lead, false) || EscapedSlot(rest)
  {
    var open, tail, close := SlotOf(lit, params);
    CutSlot(lit, open, tail, close);
    lead, name, rest := lit[..open], tail[1..close], tail[close + 1..];
  }

  lemma {:induction false} WholeAfterBrace(lit: string, esc: bool, j: nat)
    requires LiteralEnd(lit, esc).None? && j < |lit| && lit[j] == '}'
    ensures LiteralEnd(lit[j + 1..], false).None? && EndsEscaped(lit[j + 1..], false) == EndsEscaped(lit, esc)
  {
    if j > 0 {
      WholeAfterBrace(lit[1..], !esc && lit[0] == '\\', j - 1);
      assert lit[1..][j..] == lit[j + 1..];
    }
  }

  lemma WholeParts(lead: string, name: string, rest: string)
    requires Whole(lead + ("{" + (name + ("}" + rest))))
    ensures LiteralEnd(lead, false).None? && Whole(rest)
  {
    var lit := lead + ("{" + (name + ("}" + rest)));
    NoEndInPrefix(lit, false, |lead|);
    assert lit[..|lead|] == lead;
    var j := |lead| + 1 + |name|;
    assert lit[j] == ("{" + (name + ("}" + rest)))[1 + |name|] == '}' && lit[j + 1..] == rest;
    WholeAfterBrace(lit, false, j);
  }

  lemma AppendAfterSlot(lead: string, name: string, rest: string, more: string)
    ensures lead + ("{" + (name + ("}" + rest))) + more == lead + ("{" + (name + ("}" + (rest + more))))
  {}

  lemma {:induction false} LiteralSlots(lit: string, after: string, params: seq<string>, caps: Captures)
    requires Whole(lit) && CheckSlots(lit, params).Ok? && CheckJson(after, params).Ok?
    requires forall p :: p in params ==> p in caps
    ensures BraceInside(SubstituteInside(lit + ("\"" + after), caps), true, false) <==>
              EscapedSlot(lit) || SomeEscapedSlot(after)
    decreases |after|, |lit| + 1
  {
    if '{' !in lit {
      NoSlots(lit, after, caps);
      OutsideSlots(after, params, caps);
    } else {
      var lead, name, rest := FirstSlot(lit, params);
      WholeParts(lead, name, rest);
      AppendAfterSlot(lead, name, rest, "\"" + after);
      if EndsEscaped(lead, false) {
        EscapedSlotStays(lead, name, rest + ("\"" + after), caps);
      } else {
        ReplacedSlot(lead, name, rest + ("\"" + after), caps);
        LiteralSlots(rest, after, params, caps);
      }
    }
  }

  lemma SplitLiteral(body: string, n: nat)
    requires LiteralEnd(body, false) == Some(n)
    ensures body == body[..n] + ("\"" + body[n + 1..]) && Whole(body[..n])
  {
    NoEndInPrefix(body, false, n);
    EndIsUnescaped(body, false);
  }

  lemma QuoteShows(inside: string)
    ensures BraceInside("\"" + inside, false, false) == BraceInside(inside, true, false)
  {
    assert ("\"" + inside)[1..] == inside;
  }

  lemma {:induction false} OutsideSlots(t: string, params: seq<string>, caps: Captures)
    requires CheckJson(t, params).Ok? && forall p :: p in params ==> p in caps
    ensures BraceInside(SubstituteOutside(t, caps), false, false) <==> SomeEscapedSlot(t)
    decreases |t|, 0
  {
    if t != "" {
      if t[0] == '"' {
        var body := t[1..];
        var n := LiteralEnd(body, false).value;
        SplitLiteral(body, n);
        LiteralSlots(body[..n], body[n + 1..], params, caps);
        QuoteShows(SubstituteInside(body, caps));
      } else {
        OutsideSlots(t[1..], params, caps);
        assert ([t[0]] + SubstituteOutside(t[1..], caps))[1..] == SubstituteOutside(t[1..], caps);
      }
    }
  }

  /** In an accepted JSON template with no brace before its `=`, every slot the checker saw is replaced, and no opening
      brace is left in a literal, exactly when none has its brace escaped. */
  lemma SlotsLeftIff(t: string, params: seq<string>, caps: Captures)
    requires CheckTemplate(t, params).Ok? && JsonValue(t).Some? && '{' !in t[..Find(t, '=').value]
    requires forall p :: p in params ==> p in caps
    ensures var value := JsonValue(t).value;
            var out := SubstituteOutside(value, caps);
            && Substitute(t, caps) == Some(t[..Find(t, '=').value] + "=" + out)
            && (BraceInside(out, false, false) <==> SomeEscapedSlot(value))
  {
    UntrimmedChecks(JsonValue(t).value, params);
    OutsideSlots(JsonValue(t).value, params, caps);
  }

  /** A JSON value whose one literal holds the slot `x` with its brace escaped. */
  function Escaped(): string { "{\"\\{x}\"}" }

  /** Its text from the `n`th character on. */
  function Suffix(n: nat): string
    requires n <= 8
  {
    Escaped()[n..]
  }

  lemma Suffixes()
    ensures forall n :: 0 <= n < 8 ==>
              Suffix(n) != "" && Suffix(n)[0] == Escaped()[n] && Suffix(n)[1..] == Suffix(n + 1)
    ensures Suffix(8) == "" && Escaped() == Suffix(0)
  {}

  lemma EscapedScans()
    ensures Trim(Escaped()) == Escaped() && Balance(Escaped(), 0, false, false)
    ensures LiteralEnd(Suffix(2), false) == Some(4)
  {
    Suffixes();
    assert Balance(Suffix(7), 1, false, false);
    assert Balance(Suffix(5), 1, true, false);
    assert Balance(Suffix(3), 1, true, true);
    assert Balance(Suffix(1), 1, false, false);
    assert LiteralEnd(Suffix(5), false) == Some(1);
    assert LiteralEnd(Suffix(3), true) == Some(3);
  }

  lemma EscapedChecks()
    ensures CheckJson(Escaped(), ["x"]).Ok?
  {
    Suffixes();
    EscapedScans();
    EscapedSlotChecks();
    assert Suffix(2)[..4] == Escaped()[2..6] && Suffix(2)[5..] == Suffix(7);
    assert CheckJson(Suffix(7), ["x"]) == CheckJson(Suffix(8), ["x"]);
    assert CheckJson(Suffix(1), ["x"]).Ok?;
  }

  lemma EscapedSlotChecks()
    ensures CheckSlots(Escaped()[2..6], ["x"]).Ok?
  {
    var lit := Escaped()[2..6];
    FindIs(lit, '{', 1);
    assert lit[1..] == "{x}";
    FindIs("{x}", '}', 2);
    assert "{x}"[1..2] == "x" && "{x}"[3..] == "";
  }

  lemma EscapedSubstitutes(caps: Captures)
    ensures SubstituteOutside(Escaped(), caps) == Escaped()
  {
    Suffixes();
    assert SubstituteOutside(Suffix(7), caps) == Suffix(7);
    assert SubstituteInside(Suffix(6), caps) == Suffix(6);
    assert SubstituteInside(Suffix(4), caps) == Suffix(4);
    assert Suffix(2)[2..] == Suffix(4);
    assert SubstituteInside(Suffix(2), caps) == Suffix(2)[..2] + Suffix(4) == Suffix(2);
  }

  /** The envelope `q=` around a JSON value. */
  lemma Enveloped(value: string, params: seq<string>, caps: Captures)
    requires Trim(value) == value && Balance(value, 0, false, false)
    requires value != "" && value[0] == '{' && value[|value| - 1] == '}'
    ensures CheckTemplate("q=" + value, params) == CheckJson(value, params)
    ensures Substitute("q=" + value, caps) == Some("q=" + SubstituteOutside(value, caps))
  {
    var t := "q=" + value;
    FindIs(t, '=', 1);
    assert t[..1] == "q" && t[2..] == value && "q" + "=" == "q=";
    assert JsonValue(t) == Some(value);
  }

  /** A concrete one: accepted, and put out with its slot as it stands, whatever the captures. */
  lemma EscapedSlotIsCopied(caps: Captures)
    ensures CheckTemplate("q=" + Escaped(), ["x"]).Ok? && Substitute("q=" + Escaped(), caps) == Some("q=" + Escaped())
  {
    EscapedScans();
    EscapedChecks();
    EscapedSubstitutes(caps);
    Enveloped(Escaped(), ["x"], caps);
  }

  // ---------- Which templates keep their structure ----------

  /** Some `=` of the output is followed by text with the skeleton of `value`. */
  ghost predicate KeepsStructure(out: string, value: string) {
    exists i :: 0 <= i < |out| && out[i] == '=' && Skeleton(out[i + 1..], false, false) == Skeleton(value, false, false)
  }

  lemma {:induction false} SkeletonHasOnly(s: string, instr: bool, esc: bool, c: char)
    requires c in Skeleton(s, instr, esc)
    ensures c in s
  {
    if instr && (esc || s[0] != '"') {
      SkeletonHasOnly(s[1..], true, !esc && s[0] == '\\', c);
    } else {
      var rest := Skeleton(s[1..], !instr && s[0] == '"', false);
      assert Skeleton(s, instr, esc) == [s[0]] + rest;
      if c != s[0] {
        SkeletonHasOnly(s[1..], !instr && s[0] == '"', false, c);
      }
    }
  }

  /** The brace that opens the value shows. */
  lemma {:induction false} LeadingBraceShows(lead: string, rest: string)
    requires AllWhite(lead)
    ensures '{' in Skeleton(lead + ("{" + rest), false, false)
  {
    if lead == "" {
      assert lead + ("{" + rest) == "{" + rest && ("{" + rest)[1..] == rest;
    } else {
      assert (lead + ("{" + rest))[1..] == lead[1..] + ("{" + rest) && IsWhite(lead[0]);
      LeadingBraceShows(lead[1..], rest);
    }
  }

  lemma JsonValueShowsBrace(t: string)
    requires JsonValue(t).Some?
    ensures '{' in Skeleton(JsonValue(t).value, false, false)
  {
    var value := JsonValue(t).value;
    var lead, trail := TrimParts(value);
    var core := Trim(value);
    assert core == "{" + core[1..] && value == lead + ("{" + (core[1..] + trail));
    LeadingBraceShows(lead, core[1..] + trail);
  }

  /** A text without braces has no part with such a skeleton. */
  lemma NoBraceNoStructure(out: string, value: string)
    requires '{' !in out && '{' in Skeleton(value, false, false)
    ensures !KeepsStructure(out, value)
  {
    forall i | 0 <= i < |out| && out[i] == '='
      ensures Skeleton(out[i + 1..], false, false) != Skeleton(value, false, false)
    {
      if '{' in Skeleton(out[i + 1..], false, false) {
        SkeletonHasOnly(out[i + 1..], false, false, '{');
        assert false;
      }
    }
  }

  /** Whatever the captures, an accepted JSON template keeps its structure exactly when no brace stands before its
      `=`: with one, the substituter reads it as bare text and no brace is left. */
  lemma StructureSurvivesIff(t: string, params: seq<string>, caps: Captures)
    requires CheckTemplate(t, params).Ok? && JsonValue(t).Some?
    ensures Substitute(t, caps).Some?
    ensures KeepsStructure(Substitute(t, caps).value, JsonValue(t).value) <==> '{' !in t[..Find(t, '=').value]
  {
    AcceptedNeverPanics(t, params, caps);
    var head, value := t[..Find(t, '=').value], JsonValue(t).value;
    if '{' in head {
      BareLeavesNoSlot(t, caps);
      JsonValueShowsBrace(t);
      NoBraceNoStructure(Substitute(t, caps).value, value);
    } else {
      StructureSurvives(t, params, caps);
      var inner := SubstituteOutside(value, caps);
      var out := head + "=" + inner;
      assert out[|head|] == '=' && out[|head| + 1..] == inner;
    }
  }

  lemma Spelled()
    ensures "=" + ("{" + ("" + ("}" + ""))) == "={}"
    ensures "" + ("{" + ("x" + ("}" + "={}"))) == "{x}={}"
    ensures Find("{x}={}", '=') == Some(3) && '{' in "{x}={}"[..3]
  {
    FindIs("{x}={}", '=', 3);
    assert "{x}={}"[..3][0] == '{';
  }

  lemma EmptyObject()
    ensures Trim("{}") == "{}" && Balance("{}", 0, false, false) && CheckJson("{}", ["x"]).Ok?
  {
    assert "{}"[1..] == "}" && "}"[1..] == "";
    assert Balance("}", 1, false, false);
    assert CheckJson("}", ["x"]) == CheckJson("", ["x"]);
  }

  lemma EmptyObjectIsJson()
    ensures JsonValue("{x}={}") == Some("{}") && CheckTemplate("{x}={}", ["x"]).Ok?
  {
    Spelled();
    EmptyObject();
    assert "{x}={}"[4..] == "{}";
  }

  lemma BareOfSpelled(value: seq<Byte>, caps: Captures)
    requires "x" in caps && caps["x"] == value && "" !in caps
    ensures SubstituteBare("{x}={}", caps) == Some(Encode(value) + "=")
  {
    var rest: string := "={}";
    assert SubstituteBare(rest, caps) == Some("=") by {
      BareOfRest(caps);
    }
    assert SubstituteBare("" + ("{" + ("x" + ("}" + rest))), caps) == Some(Encode(value) + "=") by {
      BareSlot("", "x", rest, caps);
      assert "" + Encode(value) + "=" == Encode(value) + "=";
    }
    Spelled();
  }

  lemma BareOfRest(caps: Captures)
    requires "" !in caps
    ensures SubstituteBare("={}", caps) == Some("=")
  {
    assert SubstituteBare("=" + ("{" + ("" + ("}" + ""))), caps) == Some("=") by {
      BareText("", caps);
      BareSlot("=", "", "", caps);
      assert "=" + Encode([]) + "" == "=";
    }
    Spelled();
  }

  /** An instance: the checker reads JSON, the substituter bare text, and the structure is lost. */
  lemma ModesCanDiffer(value: seq<Byte>)
    ensures CheckTemplate("{x}={}", ["x"]).Ok? && JsonValue("{x}={}").Some?
    ensures Substitute("{x}={}", map["x" := value]) == Some(Encode(value) + "=")
    ensures !KeepsStructure(Encode(value) + "=", "{}")
  {
    var caps: Captures := map["x" := value];
    EmptyObjectIsJson();
    Spelled();
    assert |"x"| == 1;
    BareOfSpelled(value, caps);
    StructureSurvivesIff("{x}={}", ["x"], caps);
  }
}
