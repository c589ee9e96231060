/** Bytes, C integer widths and the big-endian readers of common.c. */
module Bytes {

  newtype byte = x: int | 0 <= x < 256

  type bytes = seq<byte>

  function Min(x: int, y: int): int {
    if x < y then x else y
  }

  // ----- bit operations, on natural numbers -----

  function Pow2(k: nat): (p: nat)
    ensures p >= 1
  {
    if k == 0 then 1 else 2 * Pow2(k - 1)
  }

  /** C's `x << k` before truncation to a width. */
  function Shl(x: nat, k: nat): nat {
    if k == 0 then x else 2 * Shl(x, k - 1)
  }

  /** C's `x | y`, one bit at a time. */
  function Or(x: nat, y: nat): nat {
    if x == 0 then y
    else if y == 0 then x
    else 2 * Or(x / 2, y / 2) + (if x % 2 == 1 || y % 2 == 1 then 1 else 0)
  }

  /** The value a `bits`-wide pattern has in a signed type (two's complement). */
  function AsSigned(v: nat, bits: nat): int
    requires bits > 0
  {
    if v >= Pow2(bits - 1) then v - Pow2(bits) else v
  }

  /** The pattern of a signed value, the inverse of AsSigned. */
  function AsPattern(v: int, bits: nat): nat
    requires bits > 0 && 0 <= v + Pow2(bits - 1) < Pow2(bits)
  {
    if v < 0 then v + Pow2(bits - 1) + Pow2(bits - 1) else v
  }

  predicate IsInt32(v: int) { -0x8000_0000 <= v < 0x8000_0000 }
  predicate IsInt64(v: int) { -0x8000_0000_0000_0000 <= v < 0x8000_0000_0000_0000 }

  // ----- positional values: the reference for readers and writers -----

  /** The number a byte string denotes in base 256, most significant byte first. */
  function Value(s: bytes): nat {
    if s == [] then 0 else 256 * Value(s[..|s| - 1]) + s[|s| - 1] as nat
  }

  /** The same for a field of two, four or eight bytes at an offset. */
  function U16(s: bytes, at: nat): nat
    requires at + 2 <= |s|
  {
    0x100 * s[at] as nat + s[at + 1] as nat
  }

  function U32(s: bytes, at: nat): nat
    requires at + 4 <= |s|
  {
    0x100_0000 * s[at] as nat + 0x1_0000 * s[at + 1] as nat + 0x100 * s[at + 2] as nat + s[at + 3] as nat
  }

  function U64(s: bytes, at: nat): nat
    requires at + 8 <= |s|
  {
    0x1_0000_0000 * U32(s, at) + U32(s, at + 4)
  }

  /** The k low-order base-256 digits of v, most significant first: what htonl leaves in memory. */
  function BigEndian(v: nat, k: nat): (s: bytes)
    ensures |s| == k
  {
    if k == 0 then [] else BigEndian(v / 256, k - 1) + [(v % 256) as byte]
  }

  // ----- the readers, as common.c writes them -----

  /** An OR of several terms, associated to the left as in C. */
  function OrAll(terms: seq<nat>): nat {
    if terms == [] then 0 else Or(OrAll(terms[..|terms| - 1]), terms[|terms| - 1])
  }

  function ReadI16(p: bytes): nat
    requires |p| >= 2
  {
    OrAll([Shl(p[0] as nat, 8), p[1] as nat])
  }

  function ReadI32(p: bytes): int
    requires |p| >= 4
  {
    AsSigned(OrAll([Shl(p[0] as nat, 24), Shl(p[1] as nat, 16), Shl(p[2] as nat, 8), p[3] as nat]), 32)
  }

  function ReadI64(p: bytes): int
    requires |p| >= 8
  {
    AsSigned(OrAll([Shl(p[0] as nat, 56), Shl(p[1] as nat, 48), Shl(p[2] as nat, 40), Shl(p[3] as nat, 32),
                    Shl(p[4] as nat, 24), Shl(p[5] as nat, 16), Shl(p[6] as nat, 8), p[7] as nat]), 64)
  }

  /** The bytes are taken last to first here. */
  function Ntoh64(p: bytes): nat
    requires |p| >= 8
  {
    OrAll([p[7] as nat, Shl(p[6] as nat, 8), Shl(p[5] as nat, 16), Shl(p[4] as nat, 24),
           Shl(p[3] as nat, 32), Shl(p[2] as nat, 40), Shl(p[1] as nat, 48), Shl(p[0] as nat, 56)])
  }

  // ----- facts about powers and OR -----

  lemma {:induction false} Pow2Byte(k: nat)
    ensures Pow2(k + 8) == 256 * Pow2(k)
  {
    if k == 0 {
      assert Pow2(8) == 256;
    } else {
      Pow2Byte(k - 1);
      assert Pow2(k + 8) == 2 * Pow2(k - 1 + 8);
    }
  }

  lemma Widths()
    ensures Pow2(7) == 0x80 && Pow2(15) == 0x8000 && Pow2(16) == 0x1_0000
    ensures Pow2(23) == 0x80_0000 && Pow2(24) == 0x100_0000
    ensures Pow2(31) == 0x8000_0000 && Pow2(32) == 0x1_0000_0000
    ensures Pow2(63) == 0x8000_0000_0000_0000 && Pow2(64) == 0x1_0000_0000_0000_0000
  {
    assert Pow2(7) == 128 && Pow2(8) == 256;
    Pow2Byte(7); Pow2Byte(15); Pow2Byte(23); Pow2Byte(31); Pow2Byte(39); Pow2Byte(47); Pow2Byte(55);
    assert Pow2(64) == 2 * Pow2(63) && Pow2(32) == 2 * Pow2(31) && Pow2(24) == 2 * Pow2(23) && Pow2(16) == 2 * Pow2(15);
  }

  lemma {:induction false} ShlTwice(x: nat, k: nat)
    ensures Shl(x, k + 8) == 256 * Shl(x, k)
  {
    if k == 0 {
      assert Shl(x, 1) == 2 * x;
      assert Shl(x, 2) == 4 * x;
      assert Shl(x, 4) == 4 * Shl(x, 2);
      assert Shl(x, 6) == 4 * Shl(x, 4);
      assert Shl(x, 8) == 4 * Shl(x, 6);
    } else {
      ShlTwice(x, k - 1);
      assert Shl(x, k + 8) == 2 * Shl(x, k - 1 + 8);
    }
  }

  lemma {:induction false} ShlZero(k: nat)
    ensures Shl(0, k) == 0
  {
    if k > 0 {
      ShlZero(k - 1);
    }
  }

  lemma {:induction false} OrDisjoint(x: nat, y: nat, k: nat)
    requires y < Pow2(k)
    ensures Or(Shl(x, k), y) == Shl(x, k) + y == Or(y, Shl(x, k))
  {
    if k == 0 {
    } else {
      assert Shl(x, k) == 2 * Shl(x, k - 1);
      OrDisjoint(x, y / 2, k - 1);
    }
  }

  lemma {:induction false} ShlByte(hi: nat, b: byte, k: nat)
    ensures Shl(hi, k + 8) + Shl(b as nat, k) == Shl(256 * hi + b as nat, k)
    ensures Shl(b as nat, k) + Pow2(k) <= Pow2(k + 8)
  {
    if k == 0 {
      ShlTwice(hi, 0);
      assert Pow2(8) == 256;
    } else {
      ShlByte(hi, b, k - 1);
      assert Shl(hi, k + 8) == 2 * Shl(hi, k - 1 + 8);
      assert Pow2(k + 8) == 2 * Pow2(k - 1 + 8);
    }
  }

  /** ORing the next byte in at bit k, below bits that start at k + 8, appends a base-256 digit. */
  lemma OrBelow(hi: nat, b: byte, k: nat)
    ensures Or(Shl(hi, k + 8), Shl(b as nat, k)) == Shl(256 * hi + b as nat, k)
  {
    ShlByte(hi, b, k);
    OrDisjoint(hi, Shl(b as nat, k), k + 8);
  }

  /** ORing a byte in at bit k, above a value of fewer than k bits, prefixes a digit. */
  lemma OrAbove(lo: nat, b: byte, k: nat)
    requires lo < Pow2(k)
    ensures Or(lo, Shl(b as nat, k)) == Shl(b as nat, k) + lo < Pow2(k + 8)
  {
    ShlByte(0, b, k);
    OrDisjoint(b as nat, lo, k);
  }

  // ----- the readers compute positional values -----

  lemma ValueAppend(s: bytes, b: byte)
    ensures Value(s + [b]) == 256 * Value(s) + b as nat
  {
    assert (s + [b])[..|s|] == s;
  }

  lemma {:induction false} ValueBound(s: bytes)
    ensures Value(s) < Pow2(8 * |s|)
  {
    if s == [] {
    } else {
      ValueBound(s[..|s| - 1]);
      Pow2Byte(8 * (|s| - 1));
    }
  }

  /** The digits of a prefix of p, one more at a time. */
  lemma ValuePrefix(p: bytes, n: nat)
    requires n < |p|
    ensures Value(p[..n + 1]) == 256 * Value(p[..n]) + p[n] as nat
  {
    assert p[..n + 1] == p[..n] + [p[n]];
    ValueAppend(p[..n], p[n]);
  }

  /** Value with the most significant digit split off, for reading bytes last to first. */
  lemma {:induction false} ValueFromFront(s: bytes)
    requires s != []
    ensures Value(s) == Shl(s[0] as nat, 8 * (|s| - 1)) + Value(s[1..])
  {
    if |s| == 1 {
    } else {
      var t, b := s[..|s| - 1], s[|s| - 1];
      ValueFromFront(t);
      assert s[1..][..|s| - 2] == t[1..];
      assert Value(s[1..]) == 256 * Value(t[1..]) + b as nat;
      ShlTwice(s[0] as nat, 8 * (|s| - 2));
    }
  }

  /** Terms listed most significant first OR to the positional value. */
  lemma {:induction false} OrHighFirst(p: bytes, terms: seq<nat>, n: nat)
    requires |terms| == |p| && n <= |p|
    requires forall i :: 0 <= i < |p| ==> terms[i] == Shl(p[i] as nat, 8 * (|p| - 1 - i))
    ensures OrAll(terms[..n]) == Shl(Value(p[..n]), 8 * (|p| - n))
  {
    if n == 0 {
      ShlZero(8 * |p|);
    } else {
      OrHighFirst(p, terms, n - 1);
      assert terms[..n][..n - 1] == terms[..n - 1];
      OrBelow(Value(p[..n - 1]), p[n - 1], 8 * (|p| - n));
      ValuePrefix(p, n - 1);
    }
  }

  /** Terms listed least significant first OR to the positional value. */
  lemma {:induction false} OrLowFirst(p: bytes, terms: seq<nat>, n: nat)
    requires |terms| == |p| && n <= |p|
    requires forall i :: 0 <= i < |p| ==> terms[i] == Shl(p[|p| - 1 - i] as nat, 8 * i)
    ensures OrAll(terms[..n]) == Value(p[|p| - n..])
  {
    if n == 0 {
    } else {
      OrLowFirst(p, terms, n - 1);
      assert terms[..n][..n - 1] == terms[..n - 1];
      var q := p[|p| - n..];
      assert q[1..] == p[|p| - (n - 1)..];
      ValueBound(q[1..]);
      OrAbove(Value(q[1..]), q[0], 8 * (n - 1));
      ValueFromFront(q);
    }
  }

  lemma Value4(s: bytes)
    requires |s| == 4
    ensures Value(s) == U32(s, 0)
  {
    ValuePrefix(s, 0); ValuePrefix(s, 1); ValuePrefix(s, 2); ValuePrefix(s, 3);
    assert s[..4] == s;
  }

  lemma Value8(s: bytes)
    requires |s| == 8
    ensures Value(s) == U64(s, 0)
  {
    ValuePrefix(s, 4); ValuePrefix(s, 5); ValuePrefix(s, 6); ValuePrefix(s, 7);
    assert s[..8] == s;
    Value4(s[..4]);
  }

  lemma ReadI16Exact(p: bytes)
    requires |p| >= 2
    ensures ReadI16(p) == U16(p, 0)
  {
    var terms := [Shl(p[0] as nat, 8), p[1] as nat];
    OrHighFirst(p[..2], terms, 2);
    assert terms[..2] == terms && p[..2][..2] == p[..2];
    ValuePrefix(p, 0); ValuePrefix(p, 1);
  }

  lemma ReadI32Exact(p: bytes)
    requires |p| >= 4
    ensures ReadI32(p) == AsSigned(U32(p, 0), 32)
  {
    var terms := [Shl(p[0] as nat, 24), Shl(p[1] as nat, 16), Shl(p[2] as nat, 8), p[3] as nat];
    OrHighFirst(p[..4], terms, 4);
    assert terms[..4] == terms && p[..4][..4] == p[..4];
    Value4(p[..4]);
  }

  lemma ReadI64Terms(p: bytes) returns (terms: seq<nat>)
    requires |p| >= 8
    ensures |terms| == 8 && ReadI64(p) == AsSigned(OrAll(terms), 64)
    ensures forall i :: 0 <= i < 8 ==> terms[i] == Shl(p[i] as nat, 8 * (7 - i))
  {
    terms := [Shl(p[0] as nat, 56), Shl(p[1] as nat, 48), Shl(p[2] as nat, 40), Shl(p[3] as nat, 32),
              Shl(p[4] as nat, 24), Shl(p[5] as nat, 16), Shl(p[6] as nat, 8), p[7] as nat];
  }

  lemma ReadI64Exact(p: bytes)
    requires |p| >= 8
    ensures ReadI64(p) == AsSigned(U64(p, 0), 64)
  {
    var terms := ReadI64Terms(p);
    OrHighFirst(p[..8], terms, 8);
    assert terms[..8] == terms && p[..8][..8] == p[..8];
    Value8(p[..8]);
  }

  lemma Ntoh64Terms(p: bytes) returns (terms: seq<nat>)
    requires |p| >= 8
    ensures |terms| == 8 && Ntoh64(p) == OrAll(terms)
    ensures forall i :: 0 <= i < 8 ==> terms[i] == Shl(p[7 - i] as nat, 8 * i)
  {
    terms := [p[7] as nat, Shl(p[6] as nat, 8), Shl(p[5] as nat, 16), Shl(p[4] as nat, 24),
              Shl(p[3] as nat, 32), Shl(p[2] as nat, 40), Shl(p[1] as nat, 48), Shl(p[0] as nat, 56)];
  }

  lemma Ntoh64Exact(p: bytes)
    requires |p| >= 8
    ensures Ntoh64(p) == U64(p, 0)
  {
    var terms := Ntoh64Terms(p);
    OrLowFirst(p[..8], terms, 8);
    assert terms[..8] == terms && p[..8][0..] == p[..8];
    Value8(p[..8]);
  }

  /** The two 64-bit readers see the same bits although they list the bytes in opposite orders. */
  lemma ReadersAgree(p: bytes)
    requires |p| >= 8
    ensures ReadI64(p) == AsSigned(Ntoh64(p), 64)
  {
    ReadI64Exact(p);
    Ntoh64Exact(p);
  }

  // ----- readers and writers are inverse -----

  lemma {:induction false} ValueBigEndian(v: nat, k: nat)
    requires v < Pow2(8 * k)
    ensures Value(BigEndian(v, k)) == v
  {
    if k == 0 {
    } else {
      Pow2Byte(8 * (k - 1));
      ValueBigEndian(v / 256, k - 1);
      ValueAppend(BigEndian(v / 256, k - 1), (v % 256) as byte);
    }
  }

  lemma {:induction false} BigEndianValue(s: bytes)
    ensures BigEndian(Value(s), |s|) == s
  {
    if s == [] {
    } else {
      BigEndianValue(s[..|s| - 1]);
      assert s == s[..|s| - 1] + [s[|s| - 1]];
    }
  }

  /** Network order, byte by byte. */
  lemma NetworkOrder(v: nat)
    ensures BigEndian(v, 4)
         == [(v / 0x100_0000 % 0x100) as byte, (v / 0x1_0000 % 0x100) as byte,
             (v / 0x100 % 0x100) as byte, (v % 0x100) as byte]
  {
    var a, b, c := v / 256, v / 256 / 256, v / 256 / 256 / 256;
    assert b == v / 0x1_0000 && c == v / 0x100_0000;
    assert BigEndian(c, 1) == [(c % 256) as byte];
    assert BigEndian(b, 2) == BigEndian(c, 1) + [(b % 256) as byte];
    assert BigEndian(a, 3) == BigEndian(b, 2) + [(a % 256) as byte];
  }

  lemma U32BigEndian(v: nat, tail: bytes)
    requires v < 0x1_0000_0000
    ensures U32(BigEndian(v, 4) + tail, 0) == v
  {
    Widths();
    ValueBigEndian(v, 4);
    Value4(BigEndian(v, 4));
  }

  lemma U64BigEndian(v: nat, tail: bytes)
    requires v < 0x1_0000_0000_0000_0000
    ensures U64(BigEndian(v, 8) + tail, 0) == v
  {
    Widths();
    ValueBigEndian(v, 8);
    Value8(BigEndian(v, 8));
  }

  lemma BigEndianU32(s: bytes)
    requires |s| == 4
    ensures BigEndian(U32(s, 0), 4) == s
  {
    Value4(s);
    BigEndianValue(s);
  }

  lemma BigEndianU64(s: bytes)
    requires |s| == 8
    ensures BigEndian(U64(s, 0), 8) == s
  {
    Value8(s);
    BigEndianValue(s);
  }

  lemma BigEndianU16(s: bytes)
    requires |s| == 2
    ensures BigEndian(U16(s, 0), 2) == s
  {
    ValuePrefix(s, 0); ValuePrefix(s, 1);
    assert s[..2] == s;
    BigEndianValue(s);
  }

  lemma U16BigEndian(v: nat, tail: bytes)
    requires v < 0x1_0000
    ensures U16(BigEndian(v, 2) + tail, 0) == v
  {
    assert BigEndian(v, 2) == [(v / 256) as byte, (v % 256) as byte];
  }

  /** readI32 undoes the network-order length writer, whatever bytes follow. */
  lemma ReadI32BigEndian(v: nat, tail: bytes)
    requires v < 0x8000_0000
    ensures ReadI32(BigEndian(v, 4) + tail) == v
  {
    Widths();
    ReadI32Exact(BigEndian(v, 4) + tail);
    U32BigEndian(v, tail);
  }

  /** ntoh64 followed by the cast to int64_t undoes the 64-bit writer on every signed value. */
  lemma Ntoh64BigEndian(v: int, tail: bytes)
    requires IsInt64(v)
    ensures 0 <= v + Pow2(63) < Pow2(64)
    ensures AsSigned(Ntoh64(BigEndian(AsPattern(v, 64), 8) + tail), 64) == v
  {
    Widths();
    Ntoh64Exact(BigEndian(AsPattern(v, 64), 8) + tail);
    U64BigEndian(AsPattern(v, 64), tail);
  }

  // ----- the readers as callers use them, by the values they store -----

  method LoadI16(p: bytes) returns (v: nat)
    requires |p| >= 2
    ensures v == U16(p, 0)
  {
    ReadI16Exact(p);
    v := ReadI16(p);
  }

  method LoadI32(p: bytes) returns (v: int)
    requires |p| >= 4
    ensures v == if U32(p, 0) < 0x8000_0000 then U32(p, 0) else U32(p, 0) - 0x1_0000_0000
  {
    Widths();
    ReadI32Exact(p);
    v := ReadI32(p);
  }

  method LoadU64(p: bytes) returns (v: nat)
    requires |p| >= 8
    ensures v == U64(p, 0)
  {
    Ntoh64Exact(p);
    v := Ntoh64(p);
  }
}
