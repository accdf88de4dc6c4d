/** Alias templates: what the load-time checker accepts and what the substituter does with it.
    Templates are ASCII; captured values are the bytes of a path segment. */
module AliasTemplate {
  import opened Values

  type Captures = map<string, seq<Byte>>

  datatype TemplateError = UnclosedSlot | UnclosedString | UnknownName(name: string)

  datatype Unit = Unit

  type Check = Result<Unit, TemplateError>

  // ---------- Scanning ----------

  /** The first place of a character. */
  function Find(s: string, c: char): (r: Option<nat>)
    ensures r.Some? ==> r.value < |s| && s[r.value] == c && forall j :: 0 <= j < r.value ==> s[j] != c
    ensures r.None? ==> c !in s
  {
    if s == "" then None
    else if s[0] == c then Some(0)
    else
      var rest := Find(s[1..], c);
      if rest.Some? then Some(rest.value + 1) else None
  }

  predicate IsWhite(c: char) {
    var n := c as int;
    9 <= n <= 13 || n == 32 || n == 133 || n == 160 || n == 5760 || 8192 <= n <= 8202
    || n == 8232 || n == 8233 || n == 8239 || n == 8287 || n == 12288
  }

  function TrimStart(s: string): string {
    if s != "" && IsWhite(s[0]) then TrimStart(s[1..]) else s
  }

  function TrimEnd(s: string): string {
    if s != "" && IsWhite(s[|s| - 1]) then TrimEnd(s[..|s| - 1]) else s
  }

  function Trim(s: string): string { TrimEnd(TrimStart(s)) }

  /** The brace scan from a state: nesting depth, inside a string, after a backslash. */
  function Balance(s: string, depth: nat, instr: bool, esc: bool): bool {
    if s == "" then !instr && depth == 0
    else if instr then
      if esc then Balance(s[1..], depth, true, false)
      else if s[0] == '\\' then Balance(s[1..], depth, true, true)
      else Balance(s[1..], depth, s[0] != '"', false)
    else if s[0] == '"' then Balance(s[1..], depth, true, false)
    else if s[0] == '{' then Balance(s[1..], depth + 1, false, false)
    else if s[0] == '}' then depth > 0 && Balance(s[1..], depth - 1, false, false)
    else Balance(s[1..], depth, false, false)
  }

  /** Where a string literal closes, counting from just after its opening quote. */
  function LiteralEnd(s: string, esc: bool): (r: Option<nat>)
    ensures r.Some? ==> r.value < |s| && s[r.value] == '"'
  {
    if s == "" then None
    else if !esc && s[0] == '"' then Some(0)
    else
      var rest := LiteralEnd(s[1..], !esc && s[0] == '\\');
      if rest.Some? then Some(rest.value + 1) else None
  }

  // ---------- The checker ----------

  /** Every `{name}` of the text must name a capture. */
  function CheckSlots(text: string, params: seq<string>): Check
    decreases |text|
  {
    var open := Find(text, '{');
    if open.None? then Ok(Unit)
    else
      var tail := text[open.value..];
      var close := Find(tail, '}');
      if close.None? then Err(UnclosedSlot)
      else if tail[1..close.value] !in params then Err(UnknownName(tail[1..close.value]))
      else CheckSlots(tail[close.value + 1..], params)
  }

  /** Only slots inside string literals are checked. */
  function CheckJson(json: string, params: seq<string>): Check
    decreases |json|
  {
    if json == "" then Ok(Unit)
    else if json[0] != '"' then CheckJson(json[1..], params)
    else
      var body := json[1..];
      var end := LiteralEnd(body, false);
      if end.None? then Err(UnclosedString)
      else
        var lit := CheckSlots(body[..end.value], params);
        if lit.Err? then lit else CheckJson(body[end.value + 1..], params)
  }

  /** `name=<json>`: the head before the first `=` and the value after it. */
  function JsonValue(text: string): Option<string> {
    var eq := Find(text, '=');
    if eq.None? then None
    else
      var value := Trim(text[eq.value + 1..]);
      if value != "" && value[0] == '{' && value[|value| - 1] == '}' && Balance(value, 0, false, false)
      then Some(text[eq.value + 1..]) else None
  }

  function CheckTemplate(text: string, params: seq<string>): Check {
    if JsonValue(text).Some? then CheckJson(Trim(JsonValue(text).value), params) else CheckSlots(text, params)
  }

  // ---------- The substituter ----------

  predicate Unreserved(b: Byte) {
    '0' as int <= b <= '9' as int || 'A' as int <= b <= 'Z' as int || 'a' as int <= b <= 'z' as int
    || b == '-' as int || b == '_' as int || b == '.' as int || b == '~' as int
  }

  function Hex(n: int): char
    requires 0 <= n < 16
  {
    if n < 10 then ('0' as int + n) as char else ('A' as int + n - 10) as char
  }

  function EncodeByte(b: Byte): string {
    if Unreserved(b) then [b as char] else ['%', Hex(b / 16), Hex(b % 16)]
  }

  function Encode(value: seq<Byte>): string {
    if value == [] then "" else EncodeByte(value[0]) + Encode(value[1..])
  }

  /** None is the panic of a slot that never closes. */
  function SubstituteBare(t: string, caps: Captures): Option<string>
    decreases |t|
  {
    var open := Find(t, '{');
    if open.None? then Some(t)
    else
      var tail := t[open.value..];
      var close := Find(tail, '}');
      if close.None? then None
      else
        var name := tail[1..close.value];
        var rest := SubstituteBare(tail[close.value + 1..], caps);
        if rest.None? then None
        else Some(t[..open.value] + Encode(if name in caps then caps[name] else []) + rest.value)
  }

  /** The slot at the head of the text: its length and its captured value. */
  function SlotAt(t: string, caps: Captures): Option<(nat, seq<Byte>)>
    requires t != "" && t[0] == '{'
  {
    var close := Find(t, '}');
    if close.Some? && t[1..close.value] in caps then Some((close.value + 1, caps[t[1..close.value]])) else None
  }

  function SubstituteOutside(t: string, caps: Captures): string
    decreases |t|
  {
    if t == "" then ""
    else if t[0] == '"' then "\"" + SubstituteInside(t[1..], caps)
    else [t[0]] + SubstituteOutside(t[1..], caps)
  }

  function SubstituteInside(t: string, caps: Captures): string
    decreases |t|
  {
    if t == "" then ""
    else if t[0] == '\\' && |t| >= 2 then t[..2] + SubstituteInside(t[2..], caps)
    else if t[0] == '"' then "\"" + SubstituteOutside(t[1..], caps)
    else if t[0] == '{' && SlotAt(t, caps).Some? then
      var (n, value) := SlotAt(t, caps).value;
      Encode(value) + SubstituteInside(t[n..], caps)
    else [t[0]] + SubstituteInside(t[1..], caps)
  }

  /** The substituter also wants no brace before the `=`. */
  function Substitute(t: string, caps: Captures): Option<string> {
    var eq := Find(t, '=');
    if JsonValue(t).Some? && '{' !in t[..eq.value]
    then Some(t[..eq.value] + "=" + SubstituteOutside(JsonValue(t).value, caps))
    else SubstituteBare(t, caps)
  }

  // ---------- The scanners as they run ----------

  method BalancedBraces(s: string) returns (ok: bool)
    ensures ok == Balance(s, 0, false, false)
  {
    var depth, instr, esc := 0, false, false;
    for i := 0 to |s|
      invariant depth >= 0 && (!instr ==> !esc)
      invariant Balance(s, 0, false, false) == Balance(s[i..], depth, instr, esc)
    {
      assert s[i..][0] == s[i] && s[i..][1..] == s[i + 1..];
      if instr {
        if esc {
          esc := false;
        } else if s[i] == '\\' {
          esc := true;
        } else if s[i] == '"' {
          instr := false;
        }
      } else if s[i] == '"' {
        instr := true;
      } else if s[i] == '{' {
        depth := depth + 1;
      } else if s[i] == '}' {
        depth := depth - 1;
        if depth < 0 {
          return false;
        }
      }
    }
    return !instr && depth == 0;
  }

  /** `rest` is the text from the running index on. */
  method CheckSlotsLoop(text: string, params: seq<string>) returns (r: Check)
    ensures r == CheckSlots(text, params)
  {
    var rest := text;
    while true
      invariant CheckSlots(rest, params) == CheckSlots(text, params)
      decreases |rest|
    {
      var open := Find(rest, '{');
      if open.None? {
        return Ok(Unit);
      }
      var tail := rest[open.value..];
      var close := Find(tail, '}');
      if close.None? {
        return Err(UnclosedSlot);
      }
      var name := tail[1..close.value];
      if name !in params {
        return Err(UnknownName(name));
      }
      rest := tail[close.value + 1..];
    }
  }

  /** The closing quote of a literal, counted from just after its opening one. */
  method ScanLiteral(body: string) returns (end: Option<nat>)
    ensures end == LiteralEnd(body, false)
  {
    var esc := false;
    for i := 0 to |body|
      invariant LiteralEnd(body, false) ==
                var rest := LiteralEnd(body[i..], esc); if rest.Some? then Some(rest.value + i) else None
    {
      assert body[i..][0] == body[i] && body[i..][1..] == body[i + 1..];
      if esc {
        esc := false;
      } else if body[i] == '\\' {
        esc := true;
      } else if body[i] == '"' {
        return Some(i);
      }
    }
    return None;
  }

  /** `rest` is the text from the running index on. */
  method CheckJsonLoop(json: string, params: seq<string>) returns (r: Check)
    ensures r == CheckJson(json, params)
  {
    var rest := json;
    while rest != ""
      invariant CheckJson(rest, params) == CheckJson(json, params)
      decreases |rest|
    {
      if rest[0] != '"' {
        rest := rest[1..];
      } else {
        var body := rest[1..];
        var end := ScanLiteral(body);
        if end.None? {
          return Err(UnclosedString);
        }
        var lit := CheckSlotsLoop(body[..end.value], params);
        if lit.Err? {
          return lit;
        }
        rest := body[end.value + 1..];
      }
    }
    return Ok(Unit);
  }

  method EncodeInto(prefix: string, value: seq<Byte>) returns (out: string)
    ensures out == prefix + Encode(value)
  {
    out := prefix;
    for n := 0 to |value|
      invariant out + Encode(value[n..]) == prefix + Encode(value)
    {
      assert value[n..][0] == value[n] && value[n..][1..] == value[n + 1..];
      var b := value[n];
      assert out + Encode(value[n..]) == out + EncodeByte(b) + Encode(value[n + 1..]);
      if Unreserved(b) {
        out := out + [b as char];
      } else {
        out := out + ['%', Hex(b / 16), Hex(b % 16)];
      }
    }
  }

  lemma Regroup(out: string, a: string, e: string, r: string)
    ensures out + (a + e + r) == (out + a) + e + r
  {}

  /** Requires what the checker guarantees: no slot is left open. `rest` is the text from the running index on. */
  method SubstituteBareLoop(t: string, caps: Captures) returns (out: string)
    requires SubstituteBare(t, caps).Some?
    ensures Some(out) == SubstituteBare(t, caps)
  {
    out := "";
    var rest := t;
    while true
      invariant SubstituteBare(rest, caps).Some?
      invariant out + SubstituteBare(rest, caps).value == SubstituteBare(t, caps).value
      decreases |rest|
    {
      var open := Find(rest, '{');
      if open.None? {
        return out + rest;
      }
      var tail := rest[open.value..];
      var close := Find(tail, '}').value;
      var name := tail[1..close];
      var value := if name in caps then caps[name] else [];
      Regroup(out, rest[..open.value], Encode(value), SubstituteBare(tail[close + 1..], caps).value);
      out := EncodeInto(out + rest[..open.value], value);
      rest := tail[close + 1..];
    }
  }

  lemma Shift(out: string, piece: string, r: string)
    ensures out + (piece + r) == (out + piece) + r
  {}

  /** The next characters inside a literal, and what is put out for them. */
  method InsidePiece(t: string, caps: Captures) returns (piece: string, rest: string)
    requires t != "" && t[0] != '"'
    ensures |rest| < |t| && SubstituteInside(t, caps) == piece + SubstituteInside(rest, caps)
  {
    if t[0] == '\\' && |t| >= 2 {
      return t[..2], t[2..];
    }
    if t[0] == '{' && SlotAt(t, caps).Some? {
      var (n, value) := SlotAt(t, caps).value;
      piece := EncodeInto("", value);
      return piece, t[n..];
    }
    return [t[0]], t[1..];
  }

  /** One literal, from just after its opening quote to just after its closing one or the end. */
  method SubstituteLiteral(t: string, prefix: string, caps: Captures) returns (out: string, rest: string)
    ensures |rest| <= |t|
    ensures out + SubstituteOutside(rest, caps) == prefix + SubstituteInside(t, caps)
  {
    out, rest := prefix, t;
    while rest != "" && rest[0] != '"'
      invariant |rest| <= |t|
      invariant out + SubstituteInside(rest, caps) == prefix + SubstituteInside(t, caps)
      decreases |rest|
    {
      var piece, next := InsidePiece(rest, caps);
      Shift(out, piece, SubstituteInside(next, caps));
      out, rest := out + piece, next;
    }
    if rest != "" {
      Shift(out, "\"", SubstituteOutside(rest[1..], caps));
      out, rest := out + "\"", rest[1..];
    }
  }

  method SubstituteJsonLoop(t: string, caps: Captures) returns (out: string)
    ensures out == SubstituteOutside(t, caps)
  {
    out := "";
    var rest := t;
    while rest != ""
      invariant out + SubstituteOutside(rest, caps) == SubstituteOutside(t, caps)
      decreases |rest|
    {
      if rest[0] != '"' {
        Shift(out, [rest[0]], SubstituteOutside(rest[1..], caps));
        out, rest := out + [rest[0]], rest[1..];
      } else {
        Shift(out, "\"", SubstituteInside(rest[1..], caps));
        out, rest := SubstituteLiteral(rest[1..], out + "\"", caps);
      }
    }
  }
}
