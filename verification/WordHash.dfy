/** The shift-and-xor hash of record.c (allnet_record_simple_hash_fn) and hash.c (my_hash_fn):
    the two loops, and one closed form for both. Bytes are unsigned and words are read with
    the least significant byte first, as on ARM; `int` is two's complement and negating its
    least value wraps to that value. */
module WordHash {
  import opened Bytes

  type Word = bv32

  function Rotl1(x: Word): Word {
    (x << 1) | ((x >> 31) & 1)
  }

  function Rotl(x: Word, n: nat): Word {
    if n == 0 then x else Rotl1(Rotl(x, n - 1))
  }

  function Xor(x: Word, y: Word): Word {
    x ^ y
  }

  function Or(x: Word, y: Word): Word {
    x | y
  }

  // Byte b moved to byte position k of a word.
  function Place(b: Byte, k: nat): Word
    requires k < 4
  {
    match k
    case 0 => b as bv32
    case 1 => (b as bv32) << 8
    case 2 => (b as bv32) << 16
    case 3 => (b as bv32) << 24
  }

  function WordOf(b0: Byte, b1: Byte, b2: Byte, b3: Byte): Word {
    Or(Or(Or(Place(b0, 0), Place(b1, 1)), Place(b2, 2)), Place(b3, 3))
  }

  function WordAt(data: seq<Byte>, i: nat): Word
    requires 4 * i + 4 <= |data|
  {
    WordOf(data[4 * i], data[4 * i + 1], data[4 * i + 2], data[4 * i + 3])
  }

  function Words(data: seq<Byte>, n: nat): (ws: seq<Word>)
    requires 4 * n <= |data|
    ensures |ws| == n && forall i :: 0 <= i < n ==> ws[i] == WordAt(data, i)
  {
    seq(n, i requires 0 <= i < n => WordAt(data, i))
  }

  // Byte k of the word that the left-over bits begin: 0 if they do not touch it.
  function LeftoverByte(data: seq<Byte>, bits: nat, k: nat): Byte
    requires bits <= 8 * |data| && k < 4
  {
    if 32 * (bits / 32) + 8 * k < bits then data[4 * (bits / 32) + k] else 0
  }

  // The bits left over after the whole words start the result.
  function Leftover(data: seq<Byte>, bits: nat): Word
    requires bits <= 8 * |data|
  {
    WordOf(LeftoverByte(data, bits, 0), LeftoverByte(data, bits, 1),
           LeftoverByte(data, bits, 2), LeftoverByte(data, bits, 3))
  }

  /** The xor over i of the i-th word rotated left once for each word after it. */
  function XorRotated(ws: seq<Word>): Word {
    if ws == [] then 0 else Xor(Rotl(ws[0], |ws| - 1), XorRotated(ws[1..]))
  }

  /** The closed form of both hashes before the absolute value. */
  function Raw(seed: Word, ws: seq<Word>): Word {
    Xor(Rotl(seed, |ws|), XorRotated(ws))
  }

  function Negate(x: Word): Word {
    0 - x
  }

  function AbsoluteValue(x: Word): Word {
    if x >= 0x8000_0000 then Negate(x) else x
  }

  // The left-over bits plus the length in bits, as `result += bits` computes it.
  function AddLength(leftover: Word, bits: nat): Word
    requires bits < 0x1_0000_0000
  {
    leftover + (bits as bv32)
  }

  function RecordRaw(data: seq<Byte>, bits: nat): Word
    requires bits <= 8 * |data| && bits < 0x1_0000_0000
  {
    Raw(AddLength(Leftover(data, bits), bits), Words(data, bits / 32))
  }

  function RecordHash(data: seq<Byte>, bits: nat): Word
    requires bits <= 8 * |data| && bits < 0x1_0000_0000
  {
    AbsoluteValue(RecordRaw(data, bits))
  }

  function MyRaw(data: seq<Byte>, bits: nat): Word
    requires bits <= 8 * |data|
  {
    Raw(Leftover(data, bits), Words(data, bits / 32))
  }

  // ---------- rotation and xor ----------

  /** Rotating left once doubles the word modulo 2^32 and brings the top bit back in below. */
  lemma Rotl1Is(x: Word)
    ensures Rotl1(x) == 2 * x + x / 0x8000_0000
  {}

  /** A word is its four bytes in base 256, least significant first. */
  lemma WordOfIs(b0: Byte, b1: Byte, b2: Byte, b3: Byte)
    ensures WordOf(b0, b1, b2, b3)
            == (b0 as bv32) + 0x100 * (b1 as bv32) + 0x1_0000 * (b2 as bv32) + 0x100_0000 * (b3 as bv32)
  {}

  /** The absolute value is the word or what is missing from it to 2^32, and at most 2^31. */
  lemma AbsoluteValueIs(x: Word)
    ensures AbsoluteValue(x) <= 0x8000_0000
    ensures AbsoluteValue(x) == x || AbsoluteValue(x) + x == 0
  {}

  lemma Rotl1Xor(x: Word, y: Word)
    ensures Rotl1(Xor(x, y)) == Xor(Rotl1(x), Rotl1(y))
  {}

  lemma Rotl1Injective(x: Word, y: Word)
    requires Rotl1(x) == Rotl1(y)
    ensures x == y
  {}

  lemma XorLaws(x: Word, y: Word, z: Word)
    ensures Xor(Xor(x, y), z) == Xor(x, Xor(y, z))
    ensures Xor(x, y) == Xor(y, x)
    ensures Xor(x, 0) == x && Xor(x, x) == 0
  {}

  lemma {:induction false} RotlXor(x: Word, y: Word, n: nat)
    ensures Rotl(Xor(x, y), n) == Xor(Rotl(x, n), Rotl(y, n))
  {
    if n > 0 {
      RotlXor(x, y, n - 1);
      Rotl1Xor(Rotl(x, n - 1), Rotl(y, n - 1));
    }
  }

  lemma {:induction false} RotlInjective(x: Word, y: Word, n: nat)
    requires Rotl(x, n) == Rotl(y, n)
    ensures x == y
  {
    if n > 0 {
      Rotl1Injective(Rotl(x, n - 1), Rotl(y, n - 1));
      RotlInjective(x, y, n - 1);
    }
  }

  /** Appending a word is one turn of the loop: rotate, then xor the word in. */
  lemma {:induction false} XorRotatedAppend(ws: seq<Word>, w: Word)
    ensures XorRotated(ws + [w]) == Xor(Rotl1(XorRotated(ws)), w)
  {
    if ws == [] {
      assert [] + [w] == [w] && [w][1..] == [];
      assert XorRotated([w]) == Xor(Rotl(w, 0), XorRotated([]));
      XorLaws(w, 0, 0);
      assert Rotl1(0) == 0;
    } else {
      var rest := ws[1..];
      var all := ws + [w];
      assert all[1..] == rest + [w] && all[0] == ws[0] && |all| - 1 == |ws|;
      XorRotatedAppend(rest, w);
      Rotl1Xor(Rotl(ws[0], |ws| - 1), XorRotated(rest));
      XorLaws(Rotl(ws[0], |ws|), Rotl1(XorRotated(rest)), w);
    }
  }

  lemma RawAppend(seed: Word, ws: seq<Word>, w: Word)
    ensures Raw(seed, ws + [w]) == Xor(Rotl1(Raw(seed, ws)), w)
  {
    XorRotatedAppend(ws, w);
    Rotl1Xor(Rotl(seed, |ws|), XorRotated(ws));
    XorLaws(Rotl(seed, |ws| + 1), Rotl1(XorRotated(ws)), w);
  }

  // ---------- the two loops ----------

  method HashWords(data: seq<Byte>, seed: Word, isize: nat) returns (result: Word)
    requires 4 * isize <= |data|
    ensures result == Raw(seed, Words(data, isize))
  {
    result := seed;
    ghost var ws := Words(data, isize);
    for i := 0 to isize
      invariant result == Raw(seed, ws[..i])
    {
      RawAppend(seed, ws[..i], ws[i]);
      assert ws[..i] + [ws[i]] == ws[..i + 1];
      result := Rotl1(result);
      result := Xor(result, WordAt(data, i));
    }
    assert ws[..isize] == ws;
  }

  method LeftoverBits(data: seq<Byte>, bits: nat) returns (result: Word)
    requires bits <= 8 * |data|
    ensures result == Leftover(data, bits)
    ensures forall k :: 0 <= k < 4 ==> ByteOf(result, k) == LeftoverByte(data, bits, k)
  {
    var isize := bits / 32;
    result := 0;
    if isize * 32 < bits {
      result := Place(data[isize * 4], 0);
      if isize * 32 + 8 < bits {
        result := Or(result, Place(data[isize * 4 + 1], 1));
      }
      if isize * 32 + 16 < bits {
        result := Or(result, Place(data[isize * 4 + 2], 2));
      }
      if isize * 32 + 24 < bits {
        result := Or(result, Place(data[isize * 4 + 3], 3));
      }
      ShortWord(data[isize * 4], LeftoverByte(data, bits, 1), LeftoverByte(data, bits, 2));
    } else {
      NoWord();
    }
    BytesOfWord(LeftoverByte(data, bits, 0), LeftoverByte(data, bits, 1),
                LeftoverByte(data, bits, 2), LeftoverByte(data, bits, 3));
  }

  // Bytes that are 0 need not be or-ed in.
  lemma ShortWord(b0: Byte, b1: Byte, b2: Byte)
    ensures WordOf(b0, 0, 0, 0) == Place(b0, 0)
    ensures WordOf(b0, b1, 0, 0) == Or(Place(b0, 0), Place(b1, 1))
    ensures WordOf(b0, b1, b2, 0) == Or(Or(Place(b0, 0), Place(b1, 1)), Place(b2, 2))
  {}

  lemma NoWord()
    ensures WordOf(0, 0, 0, 0) == 0
  {}

  lemma NothingLeft(data: seq<Byte>, bits: nat)
    requires bits <= 8 * |data| && bits % 32 == 0
    ensures Leftover(data, bits) == 0
  {
    NoWord();
  }

  lemma NoBits(data: seq<Byte>)
    ensures RecordHash(data, 0) == 0
  {
    assert (0 as bv32) == 0;
    NoWord();
    assert Leftover(data, 0) == 0 && Words(data, 0) == [];
  }

  /** allnet_record_simple_hash_fn: the length in bits is added to the left-over bits. */
  method SimpleHash(data: seq<Byte>, bits: nat) returns (result: Word)
    requires bits <= 8 * |data| && bits < 0x1_0000_0000
    ensures result == RecordHash(data, bits)
  {
    if bits == 0 {
      NoBits(data);
      return 0;
    }
    result := LeftoverBits(data, bits);
    result := AddLength(result, bits);
    result := HashWords(data, result, bits / 32);
    assert result == RecordRaw(data, bits);
    result := AbsoluteValue(result);
  }

  /** my_hash_fn: the same, without the length. */
  method MyHash(data: seq<Byte>, bits: nat) returns (result: Word)
    requires bits <= 8 * |data|
    ensures result == AbsoluteValue(MyRaw(data, bits))
  {
    result := LeftoverBits(data, bits);
    result := HashWords(data, result, bits / 32);
    result := AbsoluteValue(result);
  }

  /** Examples: left-over bits, a negative value, a bit that is rotated around. */
  lemma HashExamples()
    ensures var five: seq<Byte> := [1, 2, 3, 4, 5];
            RecordHash(five, 40) == 0x0403_025b && AbsoluteValue(MyRaw(five, 40)) == 0x0403_020b
    ensures var four: seq<Byte> := [1, 0, 0, 0x80];
            RecordHash(four, 32) == 0x7fff_ffbf && AbsoluteValue(MyRaw(four, 32)) == 0x7fff_ffff
    ensures var eight: seq<Byte> := [0, 0, 0, 0x80, 6, 0, 0, 0];
            AbsoluteValue(MyRaw(eight, 64)) == 7
  {
    var five: seq<Byte> := [1, 2, 3, 4, 5];
    var four: seq<Byte> := [1, 0, 0, 0x80];
    var eight: seq<Byte> := [0, 0, 0, 0x80, 6, 0, 0, 0];
    assert Words(five, 1) == [0x0403_0201] && Words(four, 1) == [0x8000_0001];
    assert Words(eight, 2) == [0x8000_0000, 6];
    OneWordRaw(45, 0x0403_0201);
    OneWordRaw(5, 0x0403_0201);
    OneWordRaw(32, 0x8000_0001);
    OneWordRaw(0, 0x8000_0001);
    OneWordRaw(0, 0x8000_0000);
    RawAppend(0, [0x8000_0000], 6);
    assert [0x8000_0000 as Word] + [6] == [0x8000_0000, 6];
    assert Leftover(five, 40) == 5 && Leftover(four, 32) == 0 && Leftover(eight, 64) == 0;
    assert AddLength(5, 40) == 45 && AddLength(0, 32) == 32;
  }

  lemma OneWordRaw(seed: Word, w: Word)
    ensures Raw(seed, [w]) == Xor(Rotl1(seed), w)
  {
    var none: seq<Word> := [];
    RawAppend(seed, none, w);
    assert none + [w] == [w];
    XorLaws(seed, 0, 0);
    assert Raw(seed, none) == seed;
  }

  // ---------- what the closed form says ----------

  /** On whole words the two hashes differ, before the absolute value, by the rotated length. */
  lemma {:induction false} RecordAndMyHash(data: seq<Byte>, bits: nat)
    requires bits <= 8 * |data| && bits < 0x1_0000_0000 && bits % 32 == 0
    ensures RecordRaw(data, bits) == Xor(MyRaw(data, bits), Rotl(bits as bv32, bits / 32))
  {
    var n, ws := bits / 32, Words(data, bits / 32);
    RotlZero(n);
    assert MyRaw(data, bits) == Xor(0, XorRotated(ws));
    AddToZero(bits as bv32);
    XorLaws(0, XorRotated(ws), 0);
    XorLaws(XorRotated(ws), Rotl(bits as bv32, n), 0);
  }

  lemma AddToZero(x: Word)
    ensures 0 + x == x
  {}

  lemma {:induction false} RotlZero(n: nat)
    ensures Rotl(0, n) == 0
  {
    if n > 0 {
      RotlZero(n - 1);
      assert Rotl1(0) == 0;
    }
  }

  /** Replacing one word by another changes the value before the absolute value. */
  lemma {:induction false} OneWordMatters(seed: Word, ws: seq<Word>, i: nat, v: Word)
    requires i < |ws| && v != ws[i]
    ensures Raw(seed, ws[i := v]) != Raw(seed, ws)
  {
    var n, us := |ws| - 1, ws[i := v];
    assert ws == ws[..n] + [ws[n]] && us == us[..n] + [us[n]];
    RawAppend(seed, ws[..n], ws[n]);
    RawAppend(seed, us[..n], us[n]);
    var r, t := Raw(seed, ws[..n]), Raw(seed, us[..n]);
    if i == n {
      assert us[..n] == ws[..n];
      if Xor(Rotl1(r), ws[n]) == Xor(Rotl1(r), v) {
        XorCancel(Rotl1(r), ws[n], v);
      }
    } else {
      assert us[..n] == ws[..n][i := v];
      OneWordMatters(seed, ws[..n], i, v);
      if Xor(Rotl1(r), ws[n]) == Xor(Rotl1(t), ws[n]) {
        XorCancelRight(Rotl1(r), Rotl1(t), ws[n]);
        Rotl1Injective(r, t);
      }
    }
  }

  lemma XorCancel(x: Word, y: Word, z: Word)
    requires Xor(x, y) == Xor(x, z)
    ensures y == z
  {}

  lemma XorCancelRight(x: Word, y: Word, z: Word)
    requires Xor(x, z) == Xor(y, z)
    ensures x == y
  {}

  // Byte position k of a word.
  function ByteOf(w: Word, k: nat): Byte
    requires k < 4
  {
    match k
    case 0 => (w & 0xff) as bv8
    case 1 => ((w >> 8) & 0xff) as bv8
    case 2 => ((w >> 16) & 0xff) as bv8
    case 3 => ((w >> 24) & 0xff) as bv8
  }

  lemma BytesOfWord(b0: Byte, b1: Byte, b2: Byte, b3: Byte)
    ensures var w := WordOf(b0, b1, b2, b3);
            ByteOf(w, 0) == b0 && ByteOf(w, 1) == b1 && ByteOf(w, 2) == b2 && ByteOf(w, 3) == b3
  {}

  lemma WordOfBytes(w: Word)
    ensures WordOf(ByteOf(w, 0), ByteOf(w, 1), ByteOf(w, 2), ByteOf(w, 3)) == w
  {}

  lemma AbsoluteValueCollision(x: Word, y: Word)
    ensures AbsoluteValue(x) == AbsoluteValue(y) <==> x == y || x == Negate(y)
  {
    NegateTwice(x);
    NegateTwice(y);
    NegateSign(x);
    NegateSign(y);
  }

  lemma NegateTwice(x: Word)
    ensures Negate(Negate(x)) == x
  {}

  lemma NegateSign(x: Word)
    ensures x != 0 && x != 0x8000_0000 ==> (Negate(x) >= 0x8000_0000 <==> x < 0x8000_0000)
    ensures Negate(0) == 0 && Negate(0x8000_0000) == 0x8000_0000
  {}

  lemma SameOtherWords(data: seq<Byte>, other: seq<Byte>, n: nat, i: nat)
    requires |data| == |other| && 4 * n <= |data| && i < n
    requires forall j :: 0 <= j < |data| && !(4 * i <= j < 4 * i + 4) ==> data[j] == other[j]
    ensures Words(other, n) == Words(data, n)[i := WordAt(other, i)]
  {}

  lemma SameLeftover(data: seq<Byte>, other: seq<Byte>, bits: nat)
    requires |data| == |other| && bits <= 8 * |data|
    requires forall j :: 4 * (bits / 32) <= j < |data| ==> data[j] == other[j]
    ensures Leftover(data, bits) == Leftover(other, bits)
  {}

  lemma SameWordSameBytes(
      b0: Byte, b1: Byte, b2: Byte, b3: Byte, c0: Byte, c1: Byte, c2: Byte, c3: Byte)
    requires WordOf(b0, b1, b2, b3) == WordOf(c0, c1, c2, c3)
    ensures b0 == c0 && b1 == c1 && b2 == c2 && b3 == c3
  {
    BytesOfWord(b0, b1, b2, b3);
    BytesOfWord(c0, c1, c2, c3);
  }

  lemma SameWordAt(data: seq<Byte>, other: seq<Byte>, i: nat)
    requires 4 * i + 4 <= |data| && 4 * i + 4 <= |other|
    requires WordAt(data, i) == WordAt(other, i)
    ensures data[4 * i..4 * i + 4] == other[4 * i..4 * i + 4]
  {
    var a, b := data[4 * i..4 * i + 4], other[4 * i..4 * i + 4];
    SameWordSameBytes(a[0], a[1], a[2], a[3], b[0], b[1], b[2], b[3]);
  }

  /** a and b have the same bytes outside word i, and differ inside it. */
  ghost predicate DifferInWord(a: seq<Byte>, b: seq<Byte>, i: nat) {
    && |a| == |b| && 4 * i + 4 <= |a|
    && (forall j :: 0 <= j < |a| && !(4 * i <= j < 4 * i + 4) ==> a[j] == b[j])
    && a[4 * i..4 * i + 4] != b[4 * i..4 * i + 4]
  }

  lemma ChangedRaw(data: seq<Byte>, other: seq<Byte>, bits: nat, i: nat)
    requires bits <= 8 * |data| && bits < 0x1_0000_0000 && i < bits / 32
    requires DifferInWord(data, other, i)
    ensures RecordRaw(data, bits) != RecordRaw(other, bits)
  {
    var n := bits / 32;
    if WordAt(data, i) == WordAt(other, i) {
      SameWordAt(data, other, i);
    }
    SameOtherWords(data, other, n, i);
    SameLeftover(data, other, bits);
    OneWordMatters(AddLength(Leftover(data, bits), bits), Words(data, n), i, WordAt(other, i));
  }

  /** Two byte strings that differ inside exactly one whole word are told apart before the
      absolute value; their hashes are then equal exactly when one value is the negation of
      the other. */
  lemma ChangedWord(data: seq<Byte>, other: seq<Byte>, bits: nat, i: nat)
    requires bits <= 8 * |data| && bits < 0x1_0000_0000 && i < bits / 32
    requires DifferInWord(data, other, i)
    ensures RecordRaw(data, bits) != RecordRaw(other, bits)
    ensures RecordHash(data, bits) == RecordHash(other, bits)
            <==> RecordRaw(data, bits) == Negate(RecordRaw(other, bits))
  {
    ChangedRaw(data, other, bits, i);
    AbsoluteValueCollision(RecordRaw(data, bits), RecordRaw(other, bits));
  }
}
