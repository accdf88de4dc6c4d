/** The base64url decoder of the token cache, against the encoding of RFC 4648 section 5. */
module TokenDecode {
  import opened Values

  function B64Val(c: Byte): Option<int> {
    if 'A' as int <= c <= 'Z' as int then Some(c - 'A' as int)
    else if 'a' as int <= c <= 'z' as int then Some(c - 'a' as int + 26)
    else if '0' as int <= c <= '9' as int then Some(c - '0' as int + 52)
    else if c == '-' as int then Some(62)
    else if c == '_' as int then Some(63)
    else None
  }

  const PAD: Byte := '=' as int

  function Pow2(n: nat): nat { if n == 0 then 1 else 2 * Pow2(n - 1) }

  function Prepend(out: seq<Byte>, rest: Option<seq<Byte>>): Option<seq<Byte>> {
    if rest.None? then None else Some(out + rest.value)
  }

  lemma PrependNothing(out: seq<Byte>, rest: Option<seq<Byte>>)
    ensures Prepend([], rest) == rest && Prepend(out, Some([])) == Some(out)
  {
    if rest.Some? {
      assert [] + rest.value == rest.value;
    }
    assert out + [] == out;
  }

  lemma PrependTwice(out: seq<Byte>, b: seq<Byte>, rest: Option<seq<Byte>>)
    ensures Prepend(out, Prepend(b, rest)) == Prepend(out + b, rest)
  {
    if rest.Some? {
      assert out + (b + rest.value) == out + b + rest.value;
    }
  }

  /** The decoder from a state: `buf` holds `nbits` bits not yet put out. */
  function DecodeFrom(s: seq<Byte>, buf: nat, nbits: nat): Option<seq<Byte>>
    requires nbits < 8 && buf < Pow2(nbits)
  {
    if s == [] || s[0] == PAD then Some([])
    else if B64Val(s[0]).None? then None
    else
      var (b, buf', nbits') := Feed(buf, nbits, B64Val(s[0]).value);
      Prepend(b, DecodeFrom(s[1..], buf', nbits'))
  }

  /** Six more bits: the byte they complete, if any, and what is left over. */
  function Feed(buf: nat, nbits: nat, v: nat): (r: (seq<Byte>, nat, nat))
    requires nbits < 8 && buf < Pow2(nbits) && v < 64
    ensures r.2 < 8 && r.1 < Pow2(r.2)
  {
    PowersOfTwo();
    var b, n := buf * 64 + v, nbits + 6;
    if n >= 8 then ([b / Pow2(n - 8)], b % Pow2(n - 8), n - 8) else ([], b, n)
  }

  lemma PowersOfTwo()
    ensures Pow2(1) == 2 && Pow2(2) == 4 && Pow2(3) == 8 && Pow2(4) == 16 && Pow2(5) == 32
    ensures Pow2(6) == 64 && Pow2(7) == 128 && Pow2(8) == 256
  {
    assert Pow2(2) == 4;
    assert Pow2(4) == 16;
    assert Pow2(6) == 64;
  }

  function Decode(s: seq<Byte>): Option<seq<Byte>> {
    if s == [] || |s| % 4 == 1 then None else DecodeFrom(s, 0, 0)
  }

  /** Shift six bits in and put out a byte when one is complete; the buffer keeps only the bits left over. */
  method FeedBits(out: seq<Byte>, buf: nat, nbits: nat, v: nat) returns (out': seq<Byte>, buf': nat, nbits': nat)
    requires nbits < 8 && buf < Pow2(nbits) && v < 64
    ensures nbits' < 8 && buf' < Pow2(nbits')
    ensures out' == out + Feed(buf, nbits, v).0 && buf' == Feed(buf, nbits, v).1 && nbits' == Feed(buf, nbits, v).2
  {
    PowersOfTwo();
    out', buf', nbits' := out, buf * 64 + v, nbits + 6;
    if nbits' >= 8 {
      nbits' := nbits' - 8;
      out' := out' + [buf' / Pow2(nbits')];
      buf' := buf' % Pow2(nbits');
    }
  }

  method B64UrlDecode(bytes: seq<Byte>) returns (r: Option<seq<Byte>>)
    ensures r == Decode(bytes)
  {
    if |bytes| == 0 || |bytes| % 4 == 1 {
      return None;
    }
    var out: seq<Byte> := [];
    var buf: nat, nbits: nat := 0, 0;
    assert bytes[0..] == bytes;
    PrependNothing(out, DecodeFrom(bytes, 0, 0));
    for i := 0 to |bytes|
      invariant nbits < 8 && buf < Pow2(nbits)
      invariant Decode(bytes) == Prepend(out, DecodeFrom(bytes[i..], buf, nbits))
    {
      assert bytes[i..][0] == bytes[i] && bytes[i..][1..] == bytes[i + 1..];
      var c := bytes[i];
      if c == PAD {
        PrependNothing(out, None);
        return Some(out);
      }
      var v := B64Val(c);
      if v.None? {
        return None;
      }
      ghost var fed := Feed(buf, nbits, v.value);
      PrependTwice(out, fed.0, DecodeFrom(bytes[i + 1..], fed.1, fed.2));
      out, buf, nbits := FeedBits(out, buf, nbits, v.value);
    }
    PrependNothing(out, None);
    return Some(out);
  }

  // ---------- The encoding ----------

  function B64Char(v: int): Byte
    requires 0 <= v < 64
  {
    if v < 26 then 'A' as int + v
    else if v < 52 then 'a' as int + v - 26
    else if v < 62 then '0' as int + v - 52
    else if v == 62 then '-' as int
    else '_' as int
  }

  function Group(a: Byte, b: Byte, c: Byte): seq<Byte> {
    [B64Char(a / 4), B64Char(a % 4 * 16 + b / 16), B64Char(b % 16 * 4 + c / 64), B64Char(c % 64)]
  }

  /** Three bytes make four characters; one or two left over make two or three, with padding when asked for. */
  function Encode(data: seq<Byte>, padded: bool): seq<Byte> {
    if data == [] then []
    else if |data| == 1 then
      [B64Char(data[0] / 4), B64Char(data[0] % 4 * 16)] + (if padded then [PAD, PAD] else [])
    else if |data| == 2 then
      [B64Char(data[0] / 4), B64Char(data[0] % 4 * 16 + data[1] / 16), B64Char(data[1] % 16 * 4)]
      + (if padded then [PAD] else [])
    else Group(data[0], data[1], data[2]) + Encode(data[3..], padded)
  }

  lemma CharRoundTrip(v: int)
    requires 0 <= v < 64
    ensures B64Val(B64Char(v)) == Some(v) && B64Char(v) != PAD
  {}

  /** Decoding one character of the encoding. */
  lemma DecodeStep(v: nat, rest: seq<Byte>, buf: nat, nbits: nat)
    requires v < 64 && nbits < 8 && buf < Pow2(nbits)
    ensures var (b, buf', nbits') := Feed(buf, nbits, v);
            DecodeFrom([B64Char(v)] + rest, buf, nbits) == Prepend(b, DecodeFrom(rest, buf', nbits'))
  {
    CharRoundTrip(v);
    assert ([B64Char(v)] + rest)[1..] == rest;
  }

  /** The four states of the bit buffer at the characters of a group. */
  lemma FeedFirst(v: nat)
    requires v < 64
    ensures Feed(0, 0, v) == ([], v, 6)
  {
    PowersOfTwo();
  }

  lemma FeedSecond(a: Byte, next: nat)
    requires next < 16
    ensures Pow2(6) == 64 && Feed(a / 4, 6, a % 4 * 16 + next) == ([a], next, 4)
  {
    PowersOfTwo();
    assert a / 4 * 64 + (a % 4 * 16 + next) == a * 16 + next;
  }

  lemma FeedThird(b: Byte, next: nat)
    requires next < 4
    ensures Pow2(4) == 16 && Feed(b / 16, 4, b % 16 * 4 + next) == ([b], next, 2)
  {
    PowersOfTwo();
    assert b / 16 * 64 + (b % 16 * 4 + next) == b * 4 + next;
  }

  lemma FeedFourth(c: Byte)
    ensures Pow2(2) == 4 && Feed(c / 64, 2, c % 64) == ([c], 0, 0)
  {
    PowersOfTwo();
    assert c / 64 * 64 + c % 64 == c;
  }

  lemma OneByte(a: Byte, tail: seq<Byte>)
    requires tail == [] || tail[0] == PAD
    ensures DecodeFrom([B64Char(a / 4), B64Char(a % 4 * 16)] + tail, 0, 0) == Some([a])
  {
    PowersOfTwo();
    HeadOfGroup(a, 0, tail, []);
    assert [a] + [] == [a];
  }

  /** The last two characters of a group of three. */
  lemma SecondByte(b: Byte, tail: seq<Byte>)
    requires tail == [] || tail[0] == PAD
    ensures Pow2(4) == 16 && DecodeFrom([B64Char(b % 16 * 4)] + tail, b / 16, 4) == Some([b])
  {
    FeedThird(b, 0);
    DecodeStep(b % 16 * 4, tail, b / 16, 4);
    assert [b] + [] == [b];
  }

  lemma PairInTwo(a: Byte, b: Byte, tail: seq<Byte>)
    ensures [B64Char(a / 4), B64Char(a % 4 * 16 + b / 16), B64Char(b % 16 * 4)] + tail
            == [B64Char(a / 4), B64Char(a % 4 * 16 + b / 16)] + ([B64Char(b % 16 * 4)] + tail)
    ensures [a] + [b] == [a, b]
  {}

  lemma TwoBytes(a: Byte, b: Byte, tail: seq<Byte>)
    requires tail == [] || tail[0] == PAD
    ensures DecodeFrom([B64Char(a / 4), B64Char(a % 4 * 16 + b / 16), B64Char(b % 16 * 4)] + tail, 0, 0) == Some([a, b])
  {
    SecondByte(b, tail);
    HeadOfGroup(a, b / 16, [B64Char(b % 16 * 4)] + tail, [b]);
    PairInTwo(a, b, tail);
  }

  /** The first two characters put out the first byte and keep four bits. */
  lemma HeadOfGroup(a: Byte, next: nat, tail: seq<Byte>, rest: seq<Byte>)
    requires next < 16 && Pow2(4) == 16 && DecodeFrom(tail, next, 4) == Some(rest)
    ensures DecodeFrom([B64Char(a / 4), B64Char(a % 4 * 16 + next)] + tail, 0, 0) == Some([a] + rest)
  {
    var v0: nat, v1: nat := a / 4, a % 4 * 16 + next;
    FeedFirst(v0);
    FeedSecond(a, next);
    DecodeStep(v1, tail, v0, 6);
    DecodeStep(v0, [B64Char(v1)] + tail, 0, 0);
    assert [B64Char(v0), B64Char(v1)] + tail == [B64Char(v0)] + ([B64Char(v1)] + tail);
    assert [] + ([a] + rest) == [a] + rest;
  }

  /** The last two characters of a full group. */
  lemma TailOfGroup(b: Byte, c: Byte, tail: seq<Byte>, rest: seq<Byte>)
    requires DecodeFrom(tail, 0, 0) == Some(rest)
    ensures Pow2(4) == 16
    ensures DecodeFrom([B64Char(b % 16 * 4 + c / 64), B64Char(c % 64)] + tail, b / 16, 4) == Some([b] + ([c] + rest))
  {
    var v2: nat, v3: nat := b % 16 * 4 + c / 64, c % 64;
    FeedThird(b, c / 64);
    FeedFourth(c);
    DecodeStep(v3, tail, c / 64, 2);
    DecodeStep(v2, [B64Char(v3)] + tail, b / 16, 4);
    assert [B64Char(v2), B64Char(v3)] + tail == [B64Char(v2)] + ([B64Char(v3)] + tail);
  }

  lemma GroupInTwo(a: Byte, b: Byte, c: Byte, tail: seq<Byte>, rest: seq<Byte>)
    ensures Group(a, b, c) + tail == [B64Char(a / 4), B64Char(a % 4 * 16 + b / 16)]
            + ([B64Char(b % 16 * 4 + c / 64), B64Char(c % 64)] + tail)
    ensures [a] + ([b] + ([c] + rest)) == [a, b, c] + rest
  {}

  lemma ThreeBytes(a: Byte, b: Byte, c: Byte, tail: seq<Byte>, rest: seq<Byte>)
    requires DecodeFrom(tail, 0, 0) == Some(rest)
    ensures DecodeFrom(Group(a, b, c) + tail, 0, 0) == Some([a, b, c] + rest)
  {
    TailOfGroup(b, c, tail, rest);
    HeadOfGroup(a, b / 16, [B64Char(b % 16 * 4 + c / 64), B64Char(c % 64)] + tail, [b] + ([c] + rest));
    GroupInTwo(a, b, c, tail, rest);
  }

  lemma {:induction false} DecodeOfEncode(data: seq<Byte>, padded: bool)
    ensures DecodeFrom(Encode(data, padded), 0, 0) == Some(data)
    decreases |data|
  {
    PowersOfTwo();
    if |data| == 1 {
      OneByte(data[0], if padded then [PAD, PAD] else []);
      assert data == [data[0]];
    } else if |data| == 2 {
      TwoBytes(data[0], data[1], if padded then [PAD] else []);
      assert data == [data[0], data[1]];
    } else if |data| > 2 {
      DecodeOfEncode(data[3..], padded);
      ThreeBytes(data[0], data[1], data[2], Encode(data[3..], padded), data[3..]);
      assert data[..3] == [data[0], data[1], data[2]] && data == data[..3] + data[3..];
    }
  }

  lemma {:induction false} EncodeLength(data: seq<Byte>, padded: bool)
    ensures |Encode(data, padded)| % 4 != 1 && (data != [] ==> Encode(data, padded) != [])
    decreases |data|
  {
    if |data| > 2 {
      EncodeLength(data[3..], padded);
      var rest := Encode(data[3..], padded);
      assert Encode(data, padded) == Group(data[0], data[1], data[2]) + rest && |Group(data[0], data[1], data[2])| == 4;
      assert (4 + |rest|) % 4 == |rest| % 4;
    }
  }

  /** Decoding gives back every non-empty byte string, padded or not. */
  lemma RoundTrip(data: seq<Byte>, padded: bool)
    requires data != []
    ensures Decode(Encode(data, padded)) == Some(data)
  {
    EncodeLength(data, padded);
    DecodeOfEncode(data, padded);
  }

  // ---------- Any input ----------

  /** The characters before the first padding character. */
  function Body(s: seq<Byte>): seq<Byte> {
    if s == [] || s[0] == '=' as int then [] else [s[0]] + Body(s[1..])
  }

  /** Letters, digits, `-` and `_`. */
  predicate InAlphabet(c: Byte) {
    'A' as int <= c <= 'Z' as int || 'a' as int <= c <= 'z' as int || '0' as int <= c <= '9' as int
    || c == '-' as int || c == '_' as int
  }

  predicate AllDigits(s: seq<Byte>) {
    s == [] || (InAlphabet(s[0]) && AllDigits(s[1..]))
  }

  lemma {:induction false} DecodeFromBody(s: seq<Byte>, buf: nat, nbits: nat)
    requires nbits < 8 && buf < Pow2(nbits)
    ensures DecodeFrom(s, buf, nbits).Some? <==> AllDigits(Body(s))
    ensures DecodeFrom(s, buf, nbits).Some? ==> |DecodeFrom(s, buf, nbits).value| == (nbits + 6 * |Body(s)|) / 8
  {
    if s != [] && s[0] != PAD {
      assert Body(s)[1..] == Body(s[1..]);
      if B64Val(s[0]).Some? {
        var (b, buf', nbits') := Feed(buf, nbits, B64Val(s[0]).value);
        DecodeFromBody(s[1..], buf', nbits');
      }
    }
  }

  /** Decoding fails exactly on an empty text, a length of 1 modulo 4, or a character outside the alphabet before
      the padding; otherwise it gives one byte for every eight whole bits. */
  lemma DecodesIff(s: seq<Byte>)
    ensures Decode(s).Some? <==> s != [] && |s| % 4 != 1 && AllDigits(Body(s))
    ensures Decode(s).Some? ==> |Decode(s).value| == 6 * |Body(s)| / 8
  {
    PowersOfTwo();
    DecodeFromBody(s, 0, 0);
  }
}
