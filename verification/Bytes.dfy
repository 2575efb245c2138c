/** Bytes, the bits of a byte string, and the comparison of two byte strings on a prefix of
    bits that hash.c (bitcmp after memcmp) and util.c (matches) both perform. */
module Bytes {

  type Byte = bv8

  // Bits are numbered from the most significant one.
  function Bit(b: Byte, i: nat): bool
    requires i < 8
  {
    match i
    case 0 => b & 0x80 != 0
    case 1 => b & 0x40 != 0
    case 2 => b & 0x20 != 0
    case 3 => b & 0x10 != 0
    case 4 => b & 0x08 != 0
    case 5 => b & 0x04 != 0
    case 6 => b & 0x02 != 0
    case 7 => b & 0x01 != 0
  }

  function BitAt(s: seq<Byte>, i: nat): bool
    requires i < 8 * |s|
  {
    Bit(s[i / 8], i % 8)
  }

  /** The first n bits of a and b are the same. */
  ghost predicate PrefixAgree(a: seq<Byte>, b: seq<Byte>, n: nat)
    requires n <= 8 * |a| && n <= 8 * |b|
  {
    forall i :: 0 <= i < n ==> BitAt(a, i) == BitAt(b, i)
  }

  ghost predicate SameBits(b: Byte, c: Byte, m: nat)
    requires m <= 8
  {
    forall i :: 0 <= i < m ==> Bit(b, i) == Bit(c, i)
  }

  ghost predicate SameBitsFrom(a: seq<Byte>, b: seq<Byte>, k: nat, m: nat)
    requires m <= 8 && k < |a| && k < |b|
  {
    forall i :: 8 * k <= i < 8 * k + m ==> BitAt(a, i) == BitAt(b, i)
  }

  lemma BitsOfByte(a: seq<Byte>, b: seq<Byte>, k: nat, m: nat)
    requires m <= 8 && k < |a| && k < |b|
    ensures SameBitsFrom(a, b, k, m) <==> SameBits(a[k], b[k], m)
  {
    if SameBitsFrom(a, b, k, m) {
      forall j | 0 <= j < m ensures Bit(a[k], j) == Bit(b[k], j) {
        assert (8 * k + j) / 8 == k && (8 * k + j) % 8 == j;
        assert BitAt(a, 8 * k + j) == BitAt(b, 8 * k + j);
      }
    } else if SameBits(a[k], b[k], m) {
      forall i | 8 * k <= i < 8 * k + m ensures BitAt(a, i) == BitAt(b, i) {
        assert i / 8 == k && i % 8 == i - 8 * k;
      }
    }
  }

  // b >> n, one case per distance: no shift amount has to be converted to a bit-vector.
  function ShiftRight(b: Byte, n: nat): Byte
    requires n <= 8
  {
    match n
    case 0 => b
    case 1 => b >> 1
    case 2 => b >> 2
    case 3 => b >> 3
    case 4 => b >> 4
    case 5 => b >> 5
    case 6 => b >> 6
    case 7 => b >> 7
    case 8 => 0
  }

  lemma TopBits1(b: Byte, c: Byte)
    ensures ShiftRight(b, 7) == ShiftRight(c, 7) <==> SameBits(b, c, 1)
  {
    assert SameBits(b, c, 1) == (Bit(b, 0) == Bit(c, 0));
  }

  lemma TopBits2(b: Byte, c: Byte)
    ensures ShiftRight(b, 6) == ShiftRight(c, 6) <==> SameBits(b, c, 2)
  {
    assert SameBits(b, c, 2) == (Bit(b, 0) == Bit(c, 0) && Bit(b, 1) == Bit(c, 1));
  }

  lemma TopBits3(b: Byte, c: Byte)
    ensures ShiftRight(b, 5) == ShiftRight(c, 5) <==> SameBits(b, c, 3)
  {
    assert SameBits(b, c, 3) == (
      Bit(b, 0) == Bit(c, 0) && Bit(b, 1) == Bit(c, 1) && Bit(b, 2) == Bit(c, 2));
  }

  lemma TopBits4(b: Byte, c: Byte)
    ensures ShiftRight(b, 4) == ShiftRight(c, 4) <==> SameBits(b, c, 4)
  {
    assert SameBits(b, c, 4) == (
      && Bit(b, 0) == Bit(c, 0) && Bit(b, 1) == Bit(c, 1) && Bit(b, 2) == Bit(c, 2)
      && Bit(b, 3) == Bit(c, 3));
  }

  lemma TopBits5(b: Byte, c: Byte)
    ensures ShiftRight(b, 3) == ShiftRight(c, 3) <==> SameBits(b, c, 5)
  {
    assert SameBits(b, c, 5) == (
      && Bit(b, 0) == Bit(c, 0) && Bit(b, 1) == Bit(c, 1) && Bit(b, 2) == Bit(c, 2)
      && Bit(b, 3) == Bit(c, 3) && Bit(b, 4) == Bit(c, 4));
  }

  lemma TopBits6(b: Byte, c: Byte)
    ensures ShiftRight(b, 2) == ShiftRight(c, 2) <==> SameBits(b, c, 6)
  {
    assert SameBits(b, c, 6) == (
      && Bit(b, 0) == Bit(c, 0) && Bit(b, 1) == Bit(c, 1) && Bit(b, 2) == Bit(c, 2)
      && Bit(b, 3) == Bit(c, 3) && Bit(b, 4) == Bit(c, 4) && Bit(b, 5) == Bit(c, 5));
  }

  lemma TopBits7(b: Byte, c: Byte)
    ensures ShiftRight(b, 1) == ShiftRight(c, 1) <==> SameBits(b, c, 7)
  {
    assert SameBits(b, c, 7) == (
      && Bit(b, 0) == Bit(c, 0) && Bit(b, 1) == Bit(c, 1) && Bit(b, 2) == Bit(c, 2)
      && Bit(b, 3) == Bit(c, 3) && Bit(b, 4) == Bit(c, 4) && Bit(b, 5) == Bit(c, 5)
      && Bit(b, 6) == Bit(c, 6));
  }

  lemma TopBits8(b: Byte, c: Byte)
    ensures b == c <==> SameBits(b, c, 8)
  {
    assert SameBits(b, c, 8) == (
      && Bit(b, 0) == Bit(c, 0) && Bit(b, 1) == Bit(c, 1) && Bit(b, 2) == Bit(c, 2)
      && Bit(b, 3) == Bit(c, 3) && Bit(b, 4) == Bit(c, 4) && Bit(b, 5) == Bit(c, 5)
      && Bit(b, 6) == Bit(c, 6) && Bit(b, 7) == Bit(c, 7));
  }

  /** Shifting away the low bits of two bytes compares exactly their first k bits. */
  lemma TopBits(b: Byte, c: Byte, k: nat)
    requires 1 <= k <= 8
    ensures ShiftRight(b, 8 - k) == ShiftRight(c, 8 - k) <==> SameBits(b, c, k)
  {
    match k
    case 1 => TopBits1(b, c);
    case 2 => TopBits2(b, c);
    case 3 => TopBits3(b, c);
    case 4 => TopBits4(b, c);
    case 5 => TopBits5(b, c);
    case 6 => TopBits6(b, c);
    case 7 => TopBits7(b, c);
    case 8 => TopBits8(b, c);
  }

  /** Two byte strings agree on a whole number of bytes exactly when those bytes are equal. */
  lemma WholeBytes(a: seq<Byte>, b: seq<Byte>, k: nat)
    requires k <= |a| && k <= |b|
    ensures PrefixAgree(a, b, 8 * k) <==> a[..k] == b[..k]
  {
    if PrefixAgree(a, b, 8 * k) {
      forall j | 0 <= j < k ensures a[j] == b[j] {
        BitsOfByte(a, b, j, 8);
        TopBits(a[j], b[j], 8);
      }
    } else if a[..k] == b[..k] {
      forall i | 0 <= i < 8 * k ensures BitAt(a, i) == BitAt(b, i) {
        assert a[..k][i / 8] == b[..k][i / 8];
      }
    }
  }

  /** Whether a and b have the same byte k once its low 8 - m bits are shifted away. */
  predicate SameTop(a: seq<Byte>, b: seq<Byte>, k: nat, m: nat)
    requires m < 8 && (m != 0 ==> k < |a| && k < |b|)
  {
    m != 0 ==> ShiftRight(a[k], 8 - m) == ShiftRight(b[k], 8 - m)
  }

  /** The test made by the code: the whole bytes of an n-bit prefix, then the first n % 8 bits
      of the next byte. */
  predicate SamePrefix(a: seq<Byte>, b: seq<Byte>, n: nat)
    requires n <= 8 * |a| && n <= 8 * |b|
  {
    a[..n / 8] == b[..n / 8] && SameTop(a, b, n / 8, n % 8)
  }

  /** The code's test decides whether two byte strings agree on their first n bits. */
  lemma SplitPrefix(a: seq<Byte>, b: seq<Byte>, n: nat)
    requires n <= 8 * |a| && n <= 8 * |b|
    ensures PrefixAgree(a, b, n) <==> SamePrefix(a, b, n)
  {
    var k, m := n / 8, n % 8;
    assert n == 8 * k + m;
    WholeBytes(a, b, k);
    if m != 0 {
      BitsOfByte(a, b, k, m);
      TopBits(a[k], b[k], m);
    }
  }
}
