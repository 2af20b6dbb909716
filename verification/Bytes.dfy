/** Byte strings and the big-endian integer encodings of `int.to_bytes` and `int.from_bytes`. */
module Bytes {
  import opened ModArith

  type byte = b: int | 0 <= b < 256
  type bytes = seq<byte>

  /** A hash function over byte strings; every result below holds for each such function. */
  type Hash = bytes -> bytes

  /** The bytes of an ASCII literal. */
  function Ascii(s: string): bytes {
    seq(|s|, i requires 0 <= i < |s| => (s[i] as int) % 256)
  }

  /** The low `width` bytes of v, most significant first. */
  function ToBytes(v: nat, width: nat): (r: bytes)
    ensures |r| == width
  {
    if width == 0 then [] else ToBytes(v / 256, width - 1) + [v % 256]
  }

  function FromBytes(b: bytes): nat {
    if |b| == 0 then 0 else FromBytes(b[..|b| - 1]) * 256 + b[|b| - 1]
  }

  lemma {:induction false} ToBytesRoundTrip(v: nat, width: nat)
    requires v < Pow(256, width)
    ensures FromBytes(ToBytes(v, width)) == v
  {
    if width > 0 {
      ToBytesRoundTrip(v / 256, width - 1);
      var b := ToBytes(v, width);
      assert b[..|b| - 1] == ToBytes(v / 256, width - 1);
    }
  }

  lemma ToBytesInjective(u: nat, v: nat, width: nat)
    requires u < Pow(256, width) && v < Pow(256, width) && ToBytes(u, width) == ToBytes(v, width)
    ensures u == v
  {
    ToBytesRoundTrip(u, width);
    ToBytesRoundTrip(v, width);
  }

  /** What fits in eight and in sixteen bytes. */
  lemma WideBounds()
    ensures Pow(256, 8) == 0x1_0000_0000_0000_0000
    ensures Pow(256, 16) == 0x1_0000_0000_0000_0000_0000_0000_0000_0000
  {
    assert Pow(256, 4) == 0x1_0000_0000 by {
      assert Pow(256, 2) == 0x1_0000;
      assert Pow(256, 3) == 0x100_0000;
    }
    PowAdd(256, 4, 4);
    PowAdd(256, 8, 8);
  }

  /** Concatenations of equally long heads agree only when heads and tails agree. */
  lemma ConcatInjective(a: bytes, b: bytes, c: bytes, d: bytes)
    requires |a| == |c| && a + b == c + d
    ensures a == c && b == d
  {
    assert a == (a + b)[..|a|] && c == (c + d)[..|c|];
    assert b == (a + b)[|a|..] && d == (c + d)[|c|..];
  }

  // ---------- exclusive or ----------

  /** Exclusive or of the low bits. */
  function XorBits(a: nat, b: nat, width: nat): (r: nat)
    ensures r < Pow(2, width)
  {
    if width == 0 then 0
    else (if a % 2 == b % 2 then 0 else 1) + 2 * XorBits(a / 2, b / 2, width - 1)
  }

  lemma {:induction false} XorBitsTwice(a: nat, b: nat, width: nat)
    requires a < Pow(2, width)
    ensures XorBits(XorBits(a, b, width), b, width) == a
  {
    if width > 0 {
      XorBitsTwice(a / 2, b / 2, width - 1);
    }
  }

  function Bit(a: nat, k: nat): nat {
    if k == 0 then a % 2 else Bit(a / 2, k - 1)
  }

  /** Bit by bit it is the exclusive or. */
  lemma {:induction false} XorIsBitwise(a: nat, b: nat, width: nat, k: nat)
    requires k < width
    ensures Bit(XorBits(a, b, width), k) == (Bit(a, k) + Bit(b, k)) % 2
    decreases width
  {
    if k > 0 {
      XorIsBitwise(a / 2, b / 2, width - 1, k - 1);
    }
  }

  lemma {:induction false} XorBitsCancel(a: nat, b: nat, c: nat, width: nat)
    requires b < Pow(2, width) && c < Pow(2, width) && XorBits(a, b, width) == XorBits(a, c, width)
    ensures b == c
  {
    if width > 0 {
      XorBitsCancel(a / 2, b / 2, c / 2, width - 1);
    }
  }

  // ---------- hashes ----------

  /** The hash has 32-byte digests. */
  ghost predicate Digests(h: Hash) {
    forall x :: |h(x)| == 32
  }

  /** Strings of one-byte characters are told apart by their bytes. */
  lemma AsciiInjective(a: string, b: string)
    requires forall c :: c in a || c in b ==> c as int < 256
    requires Ascii(a) == Ascii(b)
    ensures a == b
  {
    assert |Ascii(a)| == |a| && |Ascii(b)| == |b|;
    forall i | 0 <= i < |a| ensures a[i] == b[i] {
      assert a[i] in a && b[i] in b;
      assert Ascii(a)[i] == Ascii(b)[i];
    }
  }

  /** Byte strings of one length are told apart by the number they spell, which their length bounds. */
  lemma {:induction false} FromBytesInjective(a: bytes, b: bytes)
    requires |a| == |b| && FromBytes(a) == FromBytes(b)
    ensures a == b
  {
    if a != [] {
      var n := |a| - 1;
      LastByte(FromBytes(a[..n]), a[n], FromBytes(b[..n]), b[n]);
      FromBytesInjective(a[..n], b[..n]);
      assert a == a[..n] + [a[n]] && b == b[..n] + [b[n]];
    }
  }

  lemma LastByte(u: nat, x: byte, v: nat, y: byte)
    requires u * 256 + x == v * 256 + y
    ensures u == v && x == y
  {}

  lemma {:induction false} FromBytesBound(b: bytes)
    ensures FromBytes(b) < Pow(256, |b|)
  {
    if b != [] {
      FromBytesBound(b[..|b| - 1]);
    }
  }

  /** The hash does not collide on the given inputs. */
  ghost predicate InjectiveOn(h: Hash, inputs: set<bytes>) {
    forall x, y :: x in inputs && y in inputs && h(x) == h(y) ==> x == y
  }

  /** The digests of the given inputs stay apart as numbers modulo m. */
  ghost predicate InjectiveModulo(h: Hash, inputs: set<bytes>, m: int)
    requires m > 0
  {
    forall x, y :: x in inputs && y in inputs && FromBytes(h(x)) % m == FromBytes(h(y)) % m ==> x == y
  }
}
