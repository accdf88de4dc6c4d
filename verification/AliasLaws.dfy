/** Alias templates: accepted templates substitute, captures are put out encoded, and what bare templates become. */
module AliasLaws {
  import opened Values
  import opened AliasTemplate

  // ---------- Accepted templates never panic ----------

  ghost predicate ClosesAfter(s: string, i: nat) {
    exists j :: i <= j < |s| && s[j] == '}'
  }

  /** Every opening brace has a closing one after it. */
  ghost predicate BracesClose(s: string) {
    forall i :: 0 <= i < |s| && s[i] == '{' ==> ClosesAfter(s, i)
  }

  lemma SuffixOfSuffix(s: string, i: nat, j: nat)
    requires i + j <= |s|
    ensures s[i..][j..] == s[i + j..]
  {}

  lemma ClosedSuffix(s: string, n: nat)
    requires BracesClose(s) && n <= |s|
    ensures BracesClose(s[n..])
  {
    forall i | 0 <= i < |s[n..]| && s[n..][i] == '{' ensures ClosesAfter(s[n..], i) {
      assert s[n + i] == '{';
      var j :| n + i <= j < |s| && s[j] == '}';
      assert s[n..][j - n] == '}';
    }
  }

  lemma ClosedAround(s: string, n: nat)
    requires n < |s| && s[n] == '}' && BracesClose(s[n + 1..])
    ensures BracesClose(s)
  {
    forall i | 0 <= i < |s| && s[i] == '{' ensures ClosesAfter(s, i) {
      if i > n {
        assert s[n + 1..][i - n - 1] == '{';
        var j :| i - n - 1 <= j < |s[n + 1..]| && s[n + 1..][j] == '}';
        assert s[n + 1 + j] == '}';
      }
    }
  }

  lemma {:induction false} ClosedSubstitutes(t: string, caps: Captures)
    requires BracesClose(t)
    ensures SubstituteBare(t, caps).Some?
    decreases |t|
  {
    var open := Find(t, '{');
    if open.Some? {
      var tail := t[open.value..];
      ClosedSuffix(t, open.value);
      assert ClosesAfter(tail, 0);
      var close := Find(tail, '}').value;
      ClosedSuffix(tail, close + 1);
      ClosedSubstitutes(tail[close + 1..], caps);
    }
  }

  lemma ClosedAroundIn(s: string, from: nat, n: nat)
    requires from <= |s| && n < |s[from..]| && s[from..][n] == '}' && BracesClose(s[from..][n + 1..])
    ensures BracesClose(s)
  {
    SuffixOfSuffix(s, from, n + 1);
    ClosedAround(s, from + n);
  }

  lemma {:induction false} CheckedSlotsClose(text: string, params: seq<string>)
    requires CheckSlots(text, params).Ok?
    ensures BracesClose(text)
    decreases |text|
  {
    var open := Find(text, '{');
    if open.Some? {
      var tail := text[open.value..];
      var close := Find(tail, '}').value;
      CheckedSlotsClose(tail[close + 1..], params);
      ClosedAroundIn(text, open.value, close);
    } else {
      assert '{' !in text;
    }
  }

  predicate AllWhite(s: string) { forall i :: 0 <= i < |s| ==> IsWhite(s[i]) }

  lemma {:induction false} TrimStartIsSuffix(s: string) returns (n: nat)
    ensures n <= |s| && TrimStart(s) == s[n..] && AllWhite(s[..n])
  {
    if s != "" && IsWhite(s[0]) {
      var m := TrimStartIsSuffix(s[1..]);
      n := m + 1;
      assert s[1..][m..] == s[n..] && s[..n] == [s[0]] + s[1..][..m];
    } else {
      n := 0;
    }
  }

  lemma {:induction false} TrimEndIsPrefix(s: string) returns (n: nat)
    ensures n <= |s| && TrimEnd(s) == s[..n] && AllWhite(s[n..])
  {
    if s != "" && IsWhite(s[|s| - 1]) {
      var init := s[..|s| - 1];
      n := TrimEndIsPrefix(init);
      assert init[..n] == s[..n] && s[n..] == init[n..] + [s[|s| - 1]];
    } else {
      n := |s|;
    }
  }

  /** Trimming removes only white space around the core. */
  lemma TrimParts(s: string) returns (lead: string, trail: string)
    ensures s == lead + Trim(s) + trail && AllWhite(lead) && AllWhite(trail)
  {
    var n := TrimStartIsSuffix(s);
    var m := TrimEndIsPrefix(s[n..]);
    lead, trail := s[..n], s[n..][m..];
    assert s[n..] == s[n..][..m] + s[n..][m..];
  }

  /** A text that ends in a closing brace, up to white space, closes all its braces. */
  lemma JsonShapeCloses(t: string)
    requires JsonValue(t).Some?
    ensures BracesClose(t)
  {
    var value := JsonValue(t).value;
    var lead, trail := TrimParts(value);
    var core := Trim(value);
    var last := |t| - |trail| - 1;
    assert t == t[..|t| - |value|] + value;
    assert t[last] == core[|core| - 1] == '}';
    forall i | 0 <= i < |t| && t[i] == '{' ensures ClosesAfter(t, i) {
      assert i <= last by {
        assert forall j :: last < j < |t| ==> t[j] == trail[j - last - 1];
      }
    }
  }

  /** Every template accepted at load substitutes without a panic, in whichever mode. */
  lemma AcceptedNeverPanics(t: string, params: seq<string>, caps: Captures)
    requires CheckTemplate(t, params).Ok?
    ensures Substitute(t, caps).Some?
  {
    if JsonValue(t).Some? {
      JsonShapeCloses(t);
    } else {
      CheckedSlotsClose(t, params);
    }
    ClosedSubstitutes(t, caps);
  }

  // ---------- Which templates are read as JSON ----------

  /** Trimming leaves no white space at either end, and ASCII white space is the six usual characters. */
  lemma TrimCore(s: string)
    ensures var core := Trim(s); core != "" ==> !IsWhite(core[0]) && !IsWhite(core[|core| - 1])
    ensures forall c: char :: c as int < 128 ==> (IsWhite(c) <==> c == ' ' || 9 <= c as int <= 13)
  {
    TrimStartCore(s);
    TrimEndCore(TrimStart(s));
  }

  lemma {:induction false} TrimStartCore(s: string)
    ensures TrimStart(s) != "" ==> !IsWhite(TrimStart(s)[0])
  {
    if s != "" && IsWhite(s[0]) {
      TrimStartCore(s[1..]);
    }
  }

  lemma {:induction false} TrimEndCore(s: string)
    ensures TrimEnd(s) != "" ==> TrimEnd(s)[0] == s[0] && !IsWhite(TrimEnd(s)[|TrimEnd(s)| - 1])
  {
    if s != "" && IsWhite(s[|s| - 1]) {
      TrimEndCore(s[..|s| - 1]);
    }
  }

  /** Only a template with an `=` can be JSON, and then its first `=` splits it: what follows is the value, which,
      trimmed, starts and ends with braces and is balanced. */
  lemma JsonModeIff(head: string, value: string)
    requires '=' !in head
    ensures JsonValue(head) == None
    ensures var core := Trim(value);
            JsonValue(head + ("=" + value)) ==
            if core != "" && core[0] == '{' && core[|core| - 1] == '}' && Balance(core, 0, false, false)
            then Some(value) else None
  {
    var t := head + ("=" + value);
    assert t[..|head|] == head && t[|head| + 1..] == value;
    FindIs(t, '=', |head|);
  }

  // ---------- What the JSON checker accepts ----------

  /** The texts of the string literals; None when one does not close. */
  function LiteralsOf(json: string): Option<seq<string>>
    decreases |json|
  {
    if json == "" then Some([])
    else if json[0] != '"' then LiteralsOf(json[1..])
    else
      var end := LiteralEnd(json[1..], false);
      if end.None? then None
      else
        var rest := LiteralsOf(json[1..][end.value + 1..]);
        if rest.None? then None else Some([json[1..][..end.value]] + rest.value)
  }

  /** JSON is accepted exactly when every literal closes, every slot in a literal closes in it, and every such slot
      names a capture. */
  lemma {:induction false} JsonAcceptedIff(json: string, params: seq<string>, caps: Captures)
    ensures CheckJson(json, params).Ok? <==>
              LiteralsOf(json).Some?
              && forall lit :: lit in LiteralsOf(json).value ==>
                   SubstituteBare(lit, caps).Some? && forall n :: n in Slots(lit) ==> n in params
    decreases |json|
  {
    if json != "" {
      if json[0] != '"' {
        JsonAcceptedIff(json[1..], params, caps);
      } else {
        var end := LiteralEnd(json[1..], false);
        if end.Some? {
          var lit, rest := json[1..][..end.value], json[1..][end.value + 1..];
          BareAcceptedIff(lit, params, caps);
          JsonAcceptedIff(rest, params, caps);
          if LiteralsOf(rest).Some? {
            assert LiteralsOf(json).value == [lit] + LiteralsOf(rest).value;
          }
        }
      }
    }
  }

  // ---------- Captures are encoded ----------

  /** Letters, digits and `-._~` stand for themselves; any other byte becomes `%` and two upper-case hex digits. */
  lemma EncodeByteExact(b: Byte)
    ensures var plain := 'A' as int <= b <= 'Z' as int || 'a' as int <= b <= 'z' as int || '0' as int <= b <= '9' as int
                         || b == '-' as int || b == '.' as int || b == '_' as int || b == '~' as int;
            if plain then EncodeByte(b) == [b as char]
            else |EncodeByte(b)| == 3 && EncodeByte(b)[0] == '%'
                 && forall i :: 1 <= i < 3 ==> '0' <= EncodeByte(b)[i] <= '9' || 'A' <= EncodeByte(b)[i] <= 'F'
  {}

  function HexValue(c: char): int {
    if '0' <= c <= '9' then c as int - '0' as int else if 'A' <= c <= 'F' then c as int - 'A' as int + 10 else 0
  }

  /** Percent-decoding of RFC 3986 section 2.1. */
  function Decode(s: string): seq<int> {
    if s == "" then []
    else if s[0] == '%' && |s| >= 3 then [16 * HexValue(s[1]) + HexValue(s[2])] + Decode(s[3..])
    else [s[0] as int] + Decode(s[1..])
  }

  lemma {:induction false} EncodeRoundTrip(value: seq<Byte>)
    ensures Decode(Encode(value)) == value
  {
    if value != [] {
      EncodeRoundTrip(value[1..]);
      DecodeByte(value[0], Encode(value[1..]));
    }
  }

  lemma DecodeByte(b: Byte, rest: string)
    ensures Decode(EncodeByte(b) + rest) == [b] + Decode(rest)
  {
    if Unreserved(b) {
      assert ([b as char] + rest)[1..] == rest;
    } else {
      DecodeHex(b, rest);
    }
  }

  lemma DecodeHex(b: Byte, rest: string)
    ensures Decode(['%', Hex(b / 16), Hex(b % 16)] + rest) == [b] + Decode(rest)
  {
    var s := ['%', Hex(b / 16), Hex(b % 16)] + rest;
    assert s[0] == '%' && s[1] == Hex(b / 16) && s[2] == Hex(b % 16) && s[3..] == rest;
    HexRoundTrip(b / 16);
    HexRoundTrip(b % 16);
  }

  lemma HexRoundTrip(n: int)
    requires 0 <= n < 16
    ensures HexValue(Hex(n)) == n && Hex(n) != '%'
  {}

  /** A character with no meaning in a template, a path or a query. */
  predicate Safe(c: char) {
    c == '%' || (c as int < 256 && Unreserved(c as int))
  }

  predicate Inert(s: string) {
    s == "" || (Safe(s[0]) && Inert(s[1..]))
  }

  lemma {:induction false} InertConcat(a: string, b: string)
    requires Inert(a) && Inert(b)
    ensures Inert(a + b)
  {
    if a == "" {
      assert a + b == b;
    } else {
      assert (a + b)[1..] == a[1..] + b;
      InertConcat(a[1..], b);
    }
  }

  lemma EncodeByteIsInert(b: Byte)
    ensures Inert(EncodeByte(b))
  {
    var s := EncodeByte(b);
    if Unreserved(b) {
      assert s[1..] == "";
    } else {
      var h, l := Hex(b / 16), Hex(b % 16);
      assert Safe(h) && Safe(l);
      assert [l][1..] == "" && [h, l][1..] == [l] && ['%', h, l][1..] == [h, l];
      assert Inert([l]) && Inert([h, l]);
    }
  }

  lemma {:induction false} EncodeIsInert(value: seq<Byte>)
    ensures Inert(Encode(value))
  {
    if value != [] {
      EncodeIsInert(value[1..]);
      EncodeByteIsInert(value[0]);
      InertConcat(EncodeByte(value[0]), Encode(value[1..]));
    }
  }

  // ---------- What the bare checker accepts ----------

  /** The names between braces, as both sides scan them. */
  function Slots(t: string): seq<string>
    decreases |t|
  {
    var open := Find(t, '{');
    if open.None? then []
    else
      var tail := t[open.value..];
      var close := Find(tail, '}');
      if close.None? then [] else [tail[1..close.value]] + Slots(tail[close.value + 1..])
  }

  /** A bare template is accepted exactly when the substituter gets through it, whatever the captures,
      and every slot names a capture. */
  lemma {:induction false} BareAcceptedIff(t: string, params: seq<string>, caps: Captures)
    ensures CheckSlots(t, params).Ok? <==> SubstituteBare(t, caps).Some? && forall n :: n in Slots(t) ==> n in params
    decreases |t|
  {
    var open := Find(t, '{');
    if open.Some? {
      var tail := t[open.value..];
      var close := Find(tail, '}');
      if close.Some? {
        BareAcceptedIff(tail[close.value + 1..], params, caps);
        var name, rest := tail[1..close.value], Slots(tail[close.value + 1..]);
        assert forall n :: n in [name] + rest <==> n == name || n in rest;
      }
    }
  }

  lemma FirstSlotOf(t: string, params: seq<string>, name: string, rest: string)
    requires var open := Find(t, '{');
             open.Some? && var tail := t[open.value..]; var close := Find(tail, '}');
             close.Some? && name == tail[1..close.value] && rest == tail[close.value + 1..]
    ensures |rest| < |t| && Slots(t) == [name] + Slots(rest)
    ensures CheckSlots(t, params) == if name in params then CheckSlots(rest, params) else Err(UnknownName(name))
  {}

  /** A refusal for a name tells a slot that names no capture. */
  lemma {:induction false} RefusalTells(t: string, params: seq<string>)
    ensures match CheckSlots(t, params)
            case Err(UnknownName(n)) => n in Slots(t) && n !in params
            case Err(e) => e == UnclosedSlot
            case Ok(_) => true
    decreases |t|
  {
    var open := Find(t, '{');
    if open.Some? && Find(t[open.value..], '}').Some? {
      var tail := t[open.value..];
      var close := Find(tail, '}').value;
      var name, rest := tail[1..close], tail[close + 1..];
      FirstSlotOf(t, params, name, rest);
      RefusalTells(rest, params);
      if name !in params {
        assert Slots(t)[0] == name;
      }
    }
  }

  lemma FindIs(s: string, c: char, n: nat)
    requires n < |s| && s[n] == c && c !in s[..n]
    ensures Find(s, c) == Some(n)
  {
    if n > 0 {
      assert s[1..][..n - 1] == s[..n][1..] && s[..n][0] == s[0];
      FindIs(s[1..], c, n - 1);
    }
  }

  lemma AfterLead(lead: string, tail: string)
    requires '{' !in lead && tail != "" && tail[0] == '{'
    ensures Find(lead + tail, '{') == Some(|lead|) && (lead + tail)[..|lead|] == lead && (lead + tail)[|lead|..] == tail
  {
    assert (lead + tail)[..|lead|] == lead;
    FindIs(lead + tail, '{', |lead|);
  }

  lemma AfterName(name: string, rest: string)
    requires '}' !in name
    ensures var tail := "{" + (name + ("}" + rest));
            && Find(tail, '}') == Some(|name| + 1) && tail[1..|name| + 1] == name && tail[|name| + 2..] == rest
            && tail[1..] == name + ("}" + rest)
  {
    var tail := "{" + (name + ("}" + rest));
    assert tail[..|name| + 1] == "{" + name;
    FindIs(tail, '}', |name| + 1);
  }

  /** A slot is replaced by its encoded capture, or by nothing; the text before it stays. */
  lemma BareSlot(lead: string, name: string, rest: string, caps: Captures)
    requires '{' !in lead && '}' !in name && SubstituteBare(rest, caps).Some?
    ensures SubstituteBare(lead + ("{" + (name + ("}" + rest))), caps)
            == Some(lead + Encode(if name in caps then caps[name] else []) + SubstituteBare(rest, caps).value)
  {
    AfterLead(lead, "{" + (name + ("}" + rest)));
    AfterName(name, rest);
  }

  lemma BareText(t: string, caps: Captures)
    requires '{' !in t
    ensures SubstituteBare(t, caps) == Some(t)
  {}

  lemma {:induction false} InertHasNoBrace(s: string)
    requires Inert(s)
    ensures '{' !in s
  {
    if s != "" {
      InertHasNoBrace(s[1..]);
      assert s == [s[0]] + s[1..];
    }
  }

  /** Substituting a bare template leaves no slot behind, and no capture can open a new one. */
  lemma {:induction false} BareLeavesNoSlot(t: string, caps: Captures)
    requires SubstituteBare(t, caps).Some?
    ensures '{' !in SubstituteBare(t, caps).value
    decreases |t|
  {
    var open := Find(t, '{');
    if open.Some? {
      var tail := t[open.value..];
      var close := Find(tail, '}').value;
      var name := tail[1..close];
      var value := if name in caps then caps[name] else [];
      BareLeavesNoSlot(tail[close + 1..], caps);
      EncodeIsInert(value);
      InertHasNoBrace(Encode(value));
    }
  }
}
