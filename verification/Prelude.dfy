/** Shared vocabulary: optional values, bytes, little-endian words and C strings. */
module Prelude {
  datatype Option<+T> = None | Some(value: T)

  type byte = b: int | 0 <= b < 256

  const TWO_16: nat := 0x1_0000
  const TWO_32: nat := 0x1_0000_0000
  const TWO_63: nat := 0x8000_0000_0000_0000
  const TWO_64: nat := 0x1_0000_0000_0000_0000

  function Min(a: int, b: int): int { if a <= b then a else b }

  // ----- little-endian words -----

  function Le2(b: seq<byte>): (v: nat)
    requires |b| == 2
  {
    b[0] as int + 0x100 * (b[1] as int)
  }

  function Le4(b: seq<byte>): (v: nat)
    requires |b| == 4
  {
    b[0] as int + 0x100 * (b[1] as int) + 0x1_0000 * (b[2] as int) + 0x100_0000 * (b[3] as int)
  }

  function Le8(b: seq<byte>): (v: nat)
    requires |b| == 8
  {
    Le4(b[..4]) + TWO_32 * Le4(b[4..])
  }

  /** The low 2, 4 or 8 bytes of v, least significant first. */
  function Bytes2(v: int): seq<byte> { [v % 0x100, v / 0x100 % 0x100] }

  function Bytes4(v: int): (b: seq<byte>)
    ensures |b| == 4
  {
    [v % 0x100, v / 0x100 % 0x100, v / 0x1_0000 % 0x100, v / 0x100_0000 % 0x100]
  }

  function Bytes8(v: int): (b: seq<byte>)
    ensures |b| == 8
  {
    Bytes4(v % TWO_32) + Bytes4(v / TWO_32 % TWO_32)
  }

  lemma Le2Bytes2(v: int)
    ensures Le2(Bytes2(v)) == v % TWO_16
  {
  }

  lemma Bytes2Le2(b: seq<byte>)
    requires |b| == 2
    ensures Le2(b) < TWO_16 && Bytes2(Le2(b)) == b
  {
  }

  lemma Le4Bytes4(v: int)
    ensures Le4(Bytes4(v)) == v % TWO_32
  {
    var a, b, c, d := v / 0x100, v / 0x1_0000, v / 0x100_0000, v / TWO_32;
    assert v == 0x100 * a + v % 0x100;
    assert a == 0x100 * b + a % 0x100;
    assert b == 0x100 * c + b % 0x100;
    assert c == 0x100 * d + c % 0x100;
  }

  /** A word that fits comes back unchanged. */
  lemma SmallWords(v: nat)
    ensures v < TWO_16 ==> Le2(Bytes2(v)) == v
    ensures v < TWO_32 ==> Le4(Bytes4(v)) == v
  {
    Le2Bytes2(v);
    Le4Bytes4(v);
    hide Le2, Le4, Bytes2, Bytes4;
  }

  lemma Bytes4Le4(b: seq<byte>)
    requires |b| == 4
    ensures Le4(b) < TWO_32 && Bytes4(Le4(b)) == b
  {
    var v, b0, b1, b2, b3: int := Le4(b), b[0], b[1], b[2], b[3];
    assert v / 0x100 == b1 + 0x100 * b2 + 0x1_0000 * b3;
    assert v / 0x1_0000 == b2 + 0x100 * b3;
    assert v / 0x100_0000 == b3;
  }

  lemma SplitWord(v: int)
    ensures v % TWO_32 + TWO_32 * (v / TWO_32 % TWO_32) == v % TWO_64
  {
    var q := v / TWO_64;
    var r := v % TWO_64;
    assert v == TWO_64 * q + r;
    assert v / TWO_32 == TWO_32 * q + r / TWO_32;
    assert v / TWO_32 % TWO_32 == r / TWO_32;
  }

  lemma Le8Words(lo: nat, hi: nat)
    requires lo < TWO_32 && hi < TWO_32
    ensures Le8(Bytes4(lo) + Bytes4(hi)) == lo + TWO_32 * hi
  {
    SmallWords(lo);
    SmallWords(hi);
    hide Le4, Bytes4;
    assert (Bytes4(lo) + Bytes4(hi))[..4] == Bytes4(lo) && (Bytes4(lo) + Bytes4(hi))[4..] == Bytes4(hi);
  }

  lemma Le8Bytes8(v: int)
    ensures Le8(Bytes8(v)) == v % TWO_64
  {
    Le8Words(v % TWO_32, v / TWO_32 % TWO_32);
    SplitWord(v);
    hide Le8, Bytes4;
  }

  lemma Bytes8Le8(b: seq<byte>)
    requires |b| == 8
    ensures Le8(b) < TWO_64 && Bytes8(Le8(b)) == b
  {
    Bytes4Le4(b[..4]);
    Bytes4Le4(b[4..]);
    var v, lo, hi := Le8(b), Le4(b[..4]), Le4(b[4..]);
    assert v == lo + TWO_32 * hi;
    assert v / TWO_32 == hi && v % TWO_32 == lo && hi % TWO_32 == hi;
    assert b == b[..4] + b[4..];
  }

  /** The value of bytes whose first is the least significant. */
  function Value(b: seq<byte>): nat { if b == [] then 0 else b[0] as int + 256 * Value(b[1..]) }

  lemma {:induction false} LittleEndian(b: seq<byte>)
    ensures |b| == 2 ==> Le2(b) == Value(b)
    ensures |b| == 4 ==> Le4(b) == Value(b)
    ensures |b| == 8 ==> Le8(b) == Value(b)
  {
    ValueTwice(b);
    if |b| >= 2 {
      ValueTwice(b[2..]);
      if |b| == 8 {
        LittleEndian(b[..4]);
        LittleEndian(b[4..]);
        assert b == b[..4] + b[4..];
        ValueConcat(b[..4], b[4..]);
      }
    }
  }

  lemma ValueTwice(b: seq<byte>)
    ensures |b| >= 2 ==> Value(b) == b[0] as int + 256 * (b[1] as int) + 0x1_0000 * Value(b[2..])
  {
    if |b| >= 2 {
      assert b[1..][1..] == b[2..];
    }
  }

  lemma ValueConcat(a: seq<byte>, b: seq<byte>)
    requires |a| == 4
    ensures Value(a + b) == Value(a) + TWO_32 * Value(b)
  {
    ValueTwice(a);
    ValueTwice(a[2..]);
    ValueTwice(a + b);
    ValueTwice((a + b)[2..]);
    assert (a + b)[2..][2..] == b && a[2..][2..] == [];
  }

  // ----- bytes placed in memory -----

  /** s with the bytes b at offset at; what would lie outside s is dropped. */
  function Overlay(s: seq<byte>, at: nat, b: seq<byte>): (r: seq<byte>)
    ensures |r| == |s|
  {
    seq(|s|, k requires 0 <= k < |s| => if at <= k < at + |b| then b[k - at] else s[k])
  }

  lemma Assoc<T>(a: seq<T>, b: seq<T>, c: seq<T>)
    ensures (a + b) + c == a + (b + c)
  {
  }

  /** The pieces one after the other. */
  function Joined(pieces: seq<seq<byte>>): seq<byte> {
    if pieces == [] then [] else pieces[0] + Joined(pieces[1..])
  }

  // ----- C strings -----

  /** The string held by a buffer: its bytes before the first NUL, or all of them. */
  function CStr(buf: seq<byte>): (s: seq<byte>)
    ensures s <= buf && 0 !in s && (|s| < |buf| ==> buf[|s|] == 0)
  {
    if buf == [] || buf[0] == 0 then [] else [buf[0]] + CStr(buf[1..])
  }

  lemma {:induction false} CStrUnique(buf: seq<byte>, s: seq<byte>)
    requires s <= buf && 0 !in s && (|s| < |buf| ==> buf[|s|] == 0)
    ensures CStr(buf) == s
  {
    if s == [] {
    } else {
      assert s[0] in s;
      CStrUnique(buf[1..], s[1..]);
    }
  }
}
