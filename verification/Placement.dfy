/** Where a limiter places keys: any placement on finitely many shards, and the code's FNV-1a. */
module Placement {
  const SHARDS: nat := 16

  predicate Another(place: string -> nat, s: nat, used: set<string>, name: string) {
    name !in used && place(name) == s
  }

  /** `used` holds every key of the shard. */
  ghost predicate Covers(place: string -> nat, s: nat, used: set<string>) {
    forall name :: !Another(place, s, used, name)
  }

  /** The shard never runs out of keys. */
  ghost predicate Endless(place: string -> nat, s: nat) {
    forall used :: !Covers(place, s, used)
  }

  lemma {:induction false} LongerThan(used: set<string>) returns (n: nat)
    ensures forall name :: name in used ==> |name| < n
    decreases |used|
  {
    if used == {} {
      n := 0;
    } else {
      var name :| name in used;
      var m := LongerThan(used - {name});
      n := if |name| < m then m else |name| + 1;
    }
  }

  lemma {:induction false} Covered(place: string -> nat, m: nat) returns (used: set<string>)
    requires forall s :: 0 <= s < m ==> !Endless(place, s)
    ensures forall name :: place(name) < m ==> name in used
  {
    if m == 0 {
      used := {};
    } else {
      used := Covered(place, m - 1);
      assert !Endless(place, m - 1);
      var own: set<string> :| Covers(place, m - 1, own);
      forall name | place(name) < m ensures name in used + own {
        assert !Another(place, m - 1, own, name);
      }
      used := used + own;
    }
  }

  lemma NotAllUsed(used: set<string>)
    ensures exists name :: name !in used
  {
    var n := LongerThan(used);
    var name: string := seq(n, _ => 'x');
    assert name !in used;
  }

  /** However keys are placed on finitely many shards, some shard never runs out of them. */
  lemma SomeShardIsEndless(place: string -> nat, n: nat) returns (s: nat)
    requires forall k :: place(k) < n
    ensures s < n && Endless(place, s)
  {
    if exists s :: 0 <= s < n && Endless(place, s) {
      s :| 0 <= s < n && Endless(place, s);
    } else {
      var used := Covered(place, n);
      NotAllUsed(used);
      assert false;
    }
  }

  // ---------- Where the code places keys ----------

  /** Bitwise exclusive or. */
  function Xor(a: nat, b: nat): nat {
    if a == 0 && b == 0 then 0 else 2 * Xor(a / 2, b / 2) + (if a % 2 == b % 2 then 0 else 1)
  }

  const FNV_OFFSET: nat := 0xcbf29ce484222325
  const FNV_PRIME: nat := 0x100000001b3
  const WORD: nat := 0x1_0000_0000_0000_0000

  /** The bytes of a character, RFC 3629 section 3. */
  function Utf8(c: char): seq<nat> {
    var n := c as int;
    if n < 0x80 then [n]
    else if n < 0x800 then [0xC0 + n / 0x40, 0x80 + n % 0x40]
    else if n < 0x10000 then [0xE0 + n / 0x1000, 0x80 + n / 0x40 % 0x40, 0x80 + n % 0x40]
    else [0xF0 + n / 0x40000, 0x80 + n / 0x1000 % 0x40, 0x80 + n / 0x40 % 0x40, 0x80 + n % 0x40]
  }

  function Absorb(h: nat, bytes: seq<nat>): nat
    decreases |bytes|
  {
    if bytes == [] then h else Absorb(Xor(h, bytes[0]) * FNV_PRIME % WORD, bytes[1..])
  }

  /** FNV-1a of the key's bytes. */
  function Fnv(key: string): nat {
    if key == "" then FNV_OFFSET else Absorb(Fnv(key[..|key| - 1]), Utf8(key[|key| - 1]))
  }

  function PlaceOf(key: string): (s: nat)
    ensures s < SHARDS
  {
    Fnv(key) % SHARDS
  }

  type Bit = b: nat | b < 2

  function Flip(x: Bit, y: Bit): Bit { if x == y then 0 else 1 }

  /** The number with these lowest bits, the last one first, over `a`. */
  function Bits(a: nat, bits: seq<Bit>): nat {
    if bits == [] then a else 2 * Bits(a, bits[1..]) + bits[0]
  }

  function Flips(x: seq<Bit>, y: seq<Bit>): (r: seq<Bit>)
    requires |x| == |y|
    ensures |r| == |x|
  {
    if x == [] then [] else [Flip(x[0], y[0])] + Flips(x[1..], y[1..])
  }

  lemma XorBit(a: nat, b: nat, x: Bit, y: Bit)
    ensures Xor(2 * a + x, 2 * b + y) == 2 * Xor(a, b) + Flip(x, y)
  {
    assert (2 * a + x) / 2 == a && (2 * b + y) / 2 == b;
  }

  lemma {:induction false} XorBits(a: nat, b: nat, x: seq<Bit>, y: seq<Bit>)
    requires |x| == |y|
    ensures Xor(Bits(a, x), Bits(b, y)) == Bits(Xor(a, b), Flips(x, y))
  {
    if x != [] {
      XorBits(a, b, x[1..], y[1..]);
      XorBit(Bits(a, x[1..]), Bits(b, y[1..]), x[0], y[0]);
      assert Flips(x, y)[1..] == Flips(x[1..], y[1..]);
    }
  }

  lemma {:induction false} FlipsBack(x: seq<Bit>, y: seq<Bit>)
    requires |x| == |y|
    ensures Flips(x, Flips(x, y)) == y
  {
    if x != [] {
      FlipsBack(x[1..], y[1..]);
      assert Flips(x, y)[1..] == Flips(x[1..], y[1..]);
    }
  }

  lemma {:induction false} ToBits(n: nat, k: nat) returns (a: nat, bits: seq<Bit>)
    ensures n == Bits(a, bits) && |bits| == k
  {
    if k == 0 {
      a, bits := n, [];
    } else {
      var rest;
      a, rest := ToBits(n / 2, k - 1);
      bits := [n % 2] + rest;
      assert bits[1..] == rest;
    }
  }

  lemma BitsOver(a: nat, bits: seq<Bit>)
    requires |bits| == 4
    ensures Bits(a, bits) == 16 * a + Bits(0, bits) && Bits(0, bits) < 16
  {
    var b1 := bits[1..];
    var b2 := b1[1..];
    var b3 := b2[1..];
    assert b3[1..] == [] && Bits(a, b3) == 2 * a + b3[0] && Bits(0, b3) == b3[0];
    assert Bits(a, b2) == 4 * a + Bits(0, b2) && Bits(0, b2) < 4;
    assert Bits(a, b1) == 8 * a + Bits(0, b1) && Bits(0, b1) < 8;
  }

  /** Some byte of ASCII turns the lowest four bits of a number to any others. */
  lemma NibbleReaches(h: nat, y: nat) returns (m: nat, a: nat)
    requires y < 16
    ensures m < 0x80 && Xor(h, m) == 16 * a + y
  {
    var above, x := ToBits(h, 4);
    var none, goal := ToBits(y, 4);
    BitsOver(none, goal);
    m := Bits(4, Flips(x, goal));
    BitsOver(4, Flips(x, goal));
    XorBits(above, 4, x, Flips(x, goal));
    FlipsBack(x, goal);
    a := Xor(above, 4);
    BitsOver(a, goal);
  }

  /** The prime ends in 3 and the word is a multiple of 16. */
  lemma LowOfProduct(a: nat, x: nat)
    requires x < 16
    ensures (16 * a + x) * FNV_PRIME % WORD % 16 == 3 * x % 16
  {
    var p := (16 * a + x) * FNV_PRIME;
    var over := p / WORD;
    var r := p % WORD;
    assert p == WORD * over + r;
    assert p == 16 * (a * FNV_PRIME + x * 0x100000001b) + 3 * x;
    SameLow(r, a * FNV_PRIME + x * 0x100000001b - 0x1000_0000_0000_0000 * over, 3 * x);
  }

  lemma SameLow(r: nat, k: int, x: nat)
    requires r == 16 * k + x
    ensures r % 16 == x % 16
  {}

  /** From every key one more character leads to every shard. */
  lemma OneCharReaches(key: string, s: nat) returns (c: char)
    requires s < SHARDS
    ensures PlaceOf(key + [c]) == s
  {
    var y := 11 * s % 16;
    assert 3 * y % 16 == s by {
      ThreeTimesEleven(s);
    }
    var m, a := NibbleReaches(Fnv(key), y);
    c := m as char;
    AbsorbLast(key, c);
    LowOfProduct(a, y);
  }

  lemma ThreeTimesEleven(s: nat)
    requires s < 16
    ensures 3 * (11 * s % 16) % 16 == s
  {}

  lemma AbsorbLast(key: string, c: char)
    requires c as int < 0x80
    ensures Fnv(key + [c]) == Xor(Fnv(key), c as int) * FNV_PRIME % WORD
  {
    assert (key + [c])[..|key|] == key;
    var bytes := Utf8(c);
    assert bytes[1..] == [];
    assert Absorb(Fnv(key), bytes) == Absorb(Xor(Fnv(key), bytes[0]) * FNV_PRIME % WORD, bytes[1..]);
  }

  /** No shard of the code's placement runs out of keys, which is what `RateLimit.NotEarlierIff` asks. */
  lemma EveryShardIsEndless(s: nat)
    requires s < SHARDS
    ensures Endless(PlaceOf, s)
  {
    forall used ensures !Covers(PlaceOf, s, used) {
      var n := LongerThan(used);
      var lead: string := seq(n, _ => 'x');
      var c := OneCharReaches(lead, s);
      assert Another(PlaceOf, s, used, lead + [c]);
    }
  }
}
