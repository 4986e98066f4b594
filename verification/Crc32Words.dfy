/** The checksum in the program's own arithmetic: 32-bit words, shifts and exclusive or. It
    computes the register bit for bit, and so the published check values. */
module Crc32Words {
  import opened ByteStrings
  import opened Bits
  import opened Crc32

  /** A word with one bit set. */
  function Mask(i: nat): bv32 {
    if i == 0 then 1 else Mask(i - 1) << 1
  }

  predicate Meets(c: bv32, m: bv32) {
    c & m != 0
  }

  /** The bits of a machine word, least significant first. */
  function BitsOf(c: bv32): (w: Register)
    ensures forall i :: 0 <= i < 32 ==> w[i] == Meets(c, Mask(i))
  {
    seq(32, i requires 0 <= i < 32 => Meets(c, Mask(i)))
  }

  /** `c & 1 ? 0xEDB88320 ^ (c >> 1) : c >> 1` */
  function WordStep(c: bv32): bv32 {
    if c & 1 == 1 then 0xEDB8_8320 ^ (c >> 1) else c >> 1
  }

  function WordSteps(c: bv32, n: nat): bv32
    decreases n, c
  {
    if n == 0 then c else WordSteps(WordStep(c), n - 1)
  }

  // ---------------------------------------------------------------- masks

  predicate Single(m: bv32) {
    m & (m - 1) == 0
  }

  predicate Doubled(m: bv32, n: bv32) {
    m << 1 == n
  }

  lemma DoubleSingle(m: bv32, n: bv32)
    requires Single(m) && Doubled(m, n)
    ensures Single(n)
  {
  }

  lemma {:induction false} MaskSingle(i: nat)
    ensures Single(Mask(i))
    decreases i
  {
    hide Single;
    if i == 0 {
      assert Single(1) by { OneSingle(); }
    } else {
      MaskSingle(i - 1);
      MaskDoubled(i - 1);
      DoubleSingle(Mask(i - 1), Mask(i));
    }
  }

  lemma OneSingle()
    ensures Single(1)
  {
  }

  lemma MaskDoubled(i: nat)
    ensures Doubled(Mask(i), Mask(i + 1))
  {
  }

  lemma MaskValues()
    ensures Mask(0) == 0x1 && Mask(1) == 0x2 && Mask(2) == 0x4 && Mask(3) == 0x8
    ensures Mask(4) == 0x10 && Mask(5) == 0x20 && Mask(6) == 0x40 && Mask(7) == 0x80
    ensures Mask(8) == 0x100 && Mask(9) == 0x200 && Mask(10) == 0x400 && Mask(11) == 0x800
    ensures Mask(12) == 0x1000 && Mask(13) == 0x2000 && Mask(14) == 0x4000 && Mask(15) == 0x8000
    ensures Mask(16) == 0x10000 && Mask(17) == 0x20000 && Mask(18) == 0x40000 && Mask(19) == 0x80000
    ensures Mask(20) == 0x100000 && Mask(21) == 0x200000 && Mask(22) == 0x400000 && Mask(23) == 0x800000
    ensures Mask(24) == 0x1000000 && Mask(25) == 0x2000000 && Mask(26) == 0x4000000 && Mask(27) == 0x8000000
    ensures Mask(28) == 0x10000000 && Mask(29) == 0x20000000 && Mask(30) == 0x40000000 && Mask(31) == 0x80000000
  {
    MaskDoubled(0);
    MaskDoubled(1);
    MaskDoubled(2);
    MaskDoubled(3);
    MaskDoubled(4);
    MaskDoubled(5);
    MaskDoubled(6);
    MaskDoubled(7);
    MaskDoubled(8);
    MaskDoubled(9);
    MaskDoubled(10);
    MaskDoubled(11);
    MaskDoubled(12);
    MaskDoubled(13);
    MaskDoubled(14);
    MaskDoubled(15);
    MaskDoubled(16);
    MaskDoubled(17);
    MaskDoubled(18);
    MaskDoubled(19);
    MaskDoubled(20);
    MaskDoubled(21);
    MaskDoubled(22);
    MaskDoubled(23);
    MaskDoubled(24);
    MaskDoubled(25);
    MaskDoubled(26);
    MaskDoubled(27);
    MaskDoubled(28);
    MaskDoubled(29);
    MaskDoubled(30);
  }

  // ---------------------------------------------------------------- bit by bit

  lemma ShiftMeets(c: bv32, m: bv32, n: bv32)
    requires Doubled(m, n)
    ensures Meets(c >> 1, m) == Meets(c, n)
  {
  }

  lemma ShiftedBit(c: bv32, i: nat)
    ensures Meets(c >> 1, Mask(i)) == Meets(c, Mask(i + 1))
  {
    hide Meets, Mask, Doubled;
    MaskDoubled(i);
    ShiftMeets(c, Mask(i), Mask(i + 1));
  }

  lemma TopBit(c: bv32)
    ensures !Meets(c >> 1, Mask(31))
  {
    MaskValues();
  }

  lemma ShiftedBits(c: bv32)
    ensures BitsOf(c >> 1) == Shift(BitsOf(c), 1)
  {
    hide Meets, Mask;
    TopBit(c);
    forall i | 0 <= i < 31 ensures BitsOf(c >> 1)[i] == Shift(BitsOf(c), 1)[i] { ShiftedBit(c, i); }
  }

  lemma XorMeets(a: bv32, b: bv32, m: bv32)
    requires Single(m)
    ensures Meets(a ^ b, m) == (Meets(a, m) != Meets(b, m))
  {
  }

  lemma XoredBits(a: bv32, b: bv32)
    ensures BitsOf(a ^ b) == Xor(BitsOf(a), BitsOf(b))
  {
    hide Meets, Mask, Single;
    forall i | 0 <= i < 32 ensures BitsOf(a ^ b)[i] == Xor(BitsOf(a), BitsOf(b))[i] {
      MaskSingle(i);
      XorMeets(a, b, Mask(i));
    }
  }

  lemma LowestBit(c: bv32)
    ensures BitsOf(c)[0] <==> c & 1 == 1
  {
    assert c & 1 != 0 <==> c & 1 == 1;
  }

  /** One step of the program is one step of the register. */
  lemma StepAgrees(c: bv32)
    ensures BitStep(BitsOf(c)) == BitsOf(WordStep(c))
  {
    hide BitsOf, Shift;
    LowestBit(c);
    PolynomialWord();
    ShiftedBits(c);
    XoredBits(0xEDB8_8320, c >> 1);
  }

  lemma {:induction false} StepsAgree(c: bv32, n: nat)
    ensures BitSteps(BitsOf(c), n) == BitsOf(WordSteps(c, n))
    decreases n
  {
    hide BitStep, WordStep, BitsOf;
    if n > 0 {
      StepAgrees(c);
      StepsAgree(WordStep(c), n - 1);
    }
  }

  // ---------------------------------------------------------------- as numbers

  function Digit(b: bool): nat {
    if b then 1 else 0
  }

  function EightAt(w: Word, i: nat): nat
    requires i + 8 <= |w|
  {
    Digit(w[i]) + 2 * Digit(w[i + 1]) + 4 * Digit(w[i + 2]) + 8 * Digit(w[i + 3])
    + 16 * Digit(w[i + 4]) + 32 * Digit(w[i + 5]) + 64 * Digit(w[i + 6]) + 128 * Digit(w[i + 7])
  }

  lemma OneBit(w: Word, i: nat)
    requires i < |w|
    ensures NumberOf(w[i..]) == Digit(w[i]) + 2 * NumberOf(w[i + 1..])
  {
    assert w[i..][1..] == w[i + 1..];
  }

  lemma EightBits(w: Word, i: nat)
    requires i + 8 <= |w|
    ensures NumberOf(w[i..]) == EightAt(w, i) + 0x100 * NumberOf(w[i + 8..])
  {
    hide NumberOf;
    OneBit(w, i);
    OneBit(w, i + 1);
    OneBit(w, i + 2);
    OneBit(w, i + 3);
    OneBit(w, i + 4);
    OneBit(w, i + 5);
    OneBit(w, i + 6);
    OneBit(w, i + 7);
  }

  /** The number of a register, byte by byte. */
  function FourBytes(w: Register): nat {
    EightAt(w, 0) + 0x100 * EightAt(w, 8) + 0x1_0000 * EightAt(w, 16) + 0x100_0000 * EightAt(w, 24)
  }

  lemma NumberByBytes(w: Register)
    ensures NumberOf(w) == FourBytes(w)
  {
    assert w[0..] == w && NumberOf(w[32..]) == 0;
    hide NumberOf, EightAt;
    EightBits(w, 0);
    EightBits(w, 8);
    EightBits(w, 16);
    EightBits(w, 24);
  }

  /** A word is the register of the number it stands for. */
  lemma WordOfNumber(c: bv32, v: nat)
    requires FourBytes(BitsOf(c)) == v
    ensures BitsOf(c) == WordOf(v, 32) && NumberOf(BitsOf(c)) == v
  {
    hide FourBytes, WordOf, NumberOf, BitsOf;
    NumberByBytes(BitsOf(c));
    WordRoundTrip(BitsOf(c));
  }

  /** The register's polynomial is the program's constant, section 8 of RFC 1952. */
  lemma PolynomialWord()
    ensures POLYNOMIAL == BitsOf(0xEDB8_8320)
  {
    MaskValues();
    hide Mask;
  }

  lemma PolynomialNumber()
    ensures NumberOf(POLYNOMIAL) == 0xEDB8_8320
  {
    hide NumberOf;
    NumberByBytes(POLYNOMIAL);
  }

  /** Its first and last word are all ones. */
  lemma OnesWord()
    ensures ONES == BitsOf(0xFFFF_FFFF)
  {
    MaskValues();
    hide Mask;
  }

  // ---------------------------------------------------------------- a whole message

  /** From one word to the next over one byte. */
  lemma ByteStep(c: bv32, x: bv32, b: byte)
    requires BitsOf(x) == WordOf(b, 32)
    ensures AbsorbByte(BitsOf(c), b) == BitsOf(WordSteps(c ^ x, 8))
  {
    hide BitsOf, WordSteps, WordOf, BitSteps;
    XoredBits(c, x);
    StepsAgree(c ^ x, 8);
  }

  /** The bytes of a message, as words. */
  ghost predicate Spells(words: seq<bv32>, data: Bytes) {
    |words| == |data| && forall i :: 0 <= i < |data| ==> BitsOf(words[i]) == WordOf(data[i], 32)
  }

  function WordAbsorb(c: bv32, words: seq<bv32>): bv32
    decreases |words|
  {
    if words == [] then c else WordAbsorb(WordSteps(c ^ words[0], 8), words[1..])
  }

  lemma {:induction false} AbsorbAgrees(c: bv32, words: seq<bv32>, data: Bytes)
    requires Spells(words, data)
    ensures Absorb(BitsOf(c), data) == BitsOf(WordAbsorb(c, words))
    decreases |data|
  {
    hide WordOf, WordSteps, BitsOf, AbsorbByte;
    if data != [] {
      ByteStep(c, words[0], data[0]);
      AbsorbAgrees(WordSteps(c ^ words[0], 8), words[1..], data[1..]);
    }
  }

  /** The checksum of any message is what 32-bit arithmetic makes of it. */
  lemma CrcInWords(words: seq<bv32>, data: Bytes)
    requires Spells(words, data)
    ensures Crc(data) == NumberOf(BitsOf(WordAbsorb(0xFFFF_FFFF, words) ^ 0xFFFF_FFFF))
  {
    hide Spells, WordAbsorb, BitsOf, NumberOf, Absorb, Xor;
    OnesWord();
    AbsorbAgrees(0xFFFF_FFFF, words, data);
    XoredBits(WordAbsorb(0xFFFF_FFFF, words), 0xFFFF_FFFF);
  }

  // ---------------------------------------------------------------- the check values

  /** One byte of the message further. */
  lemma OneByte(c: bv32, words: seq<bv32>, i: nat, x: bv32, d: bv32)
    requires i < |words| && words[i] == x
    requires Eight(c ^ x) == d
    ensures WordAbsorb(c, words[i..]) == WordAbsorb(d, words[i + 1..])
  {
    hide Eight, WordSteps;
    EightSteps(c ^ x);
    assert words[i..][1..] == words[i + 1..];
  }

  lemma EightSteps(c: bv32)
    ensures WordSteps(c, 8) == Eight(c)
  {
    hide WordStep;
    assert WordSteps(c, 8) == WordSteps(WordStep(WordStep(c)), 6);
    var d := WordStep(WordStep(c));
    assert WordSteps(d, 6) == WordSteps(WordStep(WordStep(d)), 4);
    var e := WordStep(WordStep(d));
    assert WordSteps(e, 4) == WordSteps(WordStep(WordStep(e)), 2);
    var f := WordStep(WordStep(e));
    assert WordSteps(f, 2) == WordSteps(WordStep(WordStep(f)), 0);
  }

  function Eight(c: bv32): bv32 {
    WordStep(WordStep(WordStep(WordStep(WordStep(WordStep(WordStep(WordStep(c))))))))
  }

  lemma AllRead(c: bv32, words: seq<bv32>)
    ensures WordAbsorb(c, words[|words|..]) == c && words[0..] == words
  {
  }

  lemma ByteWords(x: bv32, b: byte)
    requires FourBytes(BitsOf(x)) == b
    ensures BitsOf(x) == WordOf(b, 32)
  {
    hide BitsOf, FourBytes, WordOf, NumberOf;
    WordOfNumber(x, b);
  }

  lemma Byte49()
    ensures BitsOf(0x31) == WordOf(49, 32)
  {
    MaskValues();
    hide Mask, WordOf;
    ByteWords(0x31, 49);
  }

  lemma Byte50()
    ensures BitsOf(0x32) == WordOf(50, 32)
  {
    MaskValues();
    hide Mask, WordOf;
    ByteWords(0x32, 50);
  }

  lemma Byte51()
    ensures BitsOf(0x33) == WordOf(51, 32)
  {
    MaskValues();
    hide Mask, WordOf;
    ByteWords(0x33, 51);
  }

  lemma Byte52()
    ensures BitsOf(0x34) == WordOf(52, 32)
  {
    MaskValues();
    hide Mask, WordOf;
    ByteWords(0x34, 52);
  }

  lemma Byte53()
    ensures BitsOf(0x35) == WordOf(53, 32)
  {
    MaskValues();
    hide Mask, WordOf;
    ByteWords(0x35, 53);
  }

  lemma Byte54()
    ensures BitsOf(0x36) == WordOf(54, 32)
  {
    MaskValues();
    hide Mask, WordOf;
    ByteWords(0x36, 54);
  }

  lemma Byte55()
    ensures BitsOf(0x37) == WordOf(55, 32)
  {
    MaskValues();
    hide Mask, WordOf;
    ByteWords(0x37, 55);
  }

  lemma Byte56()
    ensures BitsOf(0x38) == WordOf(56, 32)
  {
    MaskValues();
    hide Mask, WordOf;
    ByteWords(0x38, 56);
  }

  lemma Byte57()
    ensures BitsOf(0x39) == WordOf(57, 32)
  {
    MaskValues();
    hide Mask, WordOf;
    ByteWords(0x39, 57);
  }

  lemma Byte97()
    ensures BitsOf(0x61) == WordOf(97, 32)
  {
    MaskValues();
    hide Mask, WordOf;
    ByteWords(0x61, 97);
  }

  /** No bytes: the two complements cancel. */
  lemma EmptyCheck()
    ensures Crc([]) == 0
  {
    AllRead(0xFFFF_FFFF, []);
    MaskValues();
    CrcInWords([], []);
    WordOfNumber(0, 0);
  }

  /** One letter, "a". */
  lemma LetterCheck()
    ensures Crc([97]) == 0xE8B7_BE43
  {
    hide WordAbsorb, BitsOf, NumberOf, Spells, Crc;
    var words: seq<bv32> := [0x61];
    LetterCheckSpelled();
    LetterCheckAbsorbed(words);
    LetterCheckWord();
    CrcInWords(words, [97]);
  }

  lemma LetterCheckSpelled()
    ensures Spells([0x61], [97])
  {
    hide BitsOf, WordOf;
    Byte97();
  }

  lemma LetterCheckAbsorbed(words: seq<bv32>)
    requires words == [0x61]
    ensures WordAbsorb(0xFFFF_FFFF, words) == 0x1748_41BC
  {
    hide WordAbsorb, Eight;
    LetterCheckSteps();
    OneByte(0xFFFF_FFFF, words, 0, 0x61, 0x1748_41BC);
    AllRead(0x1748_41BC, words);
  }

  lemma LetterCheckSteps()
    ensures Eight(0xFFFF_FFFF ^ 0x61) == 0x1748_41BC
  {
  }

  lemma LetterCheckWord()
    ensures NumberOf(BitsOf(0x1748_41BC ^ 0xFFFF_FFFF)) == 0xE8B7_BE43
  {
    MaskValues();
    hide Mask, NumberOf;
    WordOfNumber(0xE8B7_BE43, 0xE8B7_BE43);
  }

  /** The published check value, of "123456789". */
  lemma NineCheck()
    ensures Crc([49, 50, 51, 52, 53, 54, 55, 56, 57]) == 0xCBF4_3926
  {
    hide WordAbsorb, BitsOf, NumberOf, Spells, Crc;
    var words: seq<bv32> := [0x31, 0x32, 0x33, 0x34, 0x35, 0x36, 0x37, 0x38, 0x39];
    NineCheckSpelled();
    NineCheckAbsorbed(words);
    NineCheckWord();
    CrcInWords(words, [49, 50, 51, 52, 53, 54, 55, 56, 57]);
  }

  lemma NineCheckSpelled()
    ensures Spells([0x31, 0x32, 0x33, 0x34, 0x35, 0x36, 0x37, 0x38, 0x39], [49, 50, 51, 52, 53, 54, 55, 56, 57])
  {
    hide BitsOf, WordOf;
    Byte49();
    Byte50();
    Byte51();
    Byte52();
    Byte53();
    Byte54();
    Byte55();
    Byte56();
    Byte57();
  }

  lemma NineCheckAbsorbed(words: seq<bv32>)
    requires words == [0x31, 0x32, 0x33, 0x34, 0x35, 0x36, 0x37, 0x38, 0x39]
    ensures WordAbsorb(0xFFFF_FFFF, words) == 0x340B_C6D9
  {
    hide WordAbsorb, Eight;
    NineCheckSteps();
    OneByte(0xFFFF_FFFF, words, 0, 0x31, 0x7C23_1048);
    OneByte(0x7C23_1048, words, 1, 0x32, 0xB0AC_BB32);
    OneByte(0xB0AC_BB32, words, 2, 0x33, 0x77B7_9C2D);
    OneByte(0x77B7_9C2D, words, 3, 0x34, 0x641C_1F5C);
    OneByte(0x641C_1F5C, words, 4, 0x35, 0x340A_C5E3);
    OneByte(0x340A_C5E3, words, 5, 0x36, 0xF68D_2C9E);
    OneByte(0xF68D_2C9E, words, 6, 0x37, 0xAFFC_9660);
    OneByte(0xAFFC_9660, words, 7, 0x38, 0x651F_2550);
    OneByte(0x651F_2550, words, 8, 0x39, 0x340B_C6D9);
    AllRead(0x340B_C6D9, words);
  }

  lemma NineCheckSteps()
    ensures Eight(0xFFFF_FFFF ^ 0x31) == 0x7C23_1048
    ensures Eight(0x7C23_1048 ^ 0x32) == 0xB0AC_BB32
    ensures Eight(0xB0AC_BB32 ^ 0x33) == 0x77B7_9C2D
    ensures Eight(0x77B7_9C2D ^ 0x34) == 0x641C_1F5C
    ensures Eight(0x641C_1F5C ^ 0x35) == 0x340A_C5E3
    ensures Eight(0x340A_C5E3 ^ 0x36) == 0xF68D_2C9E
    ensures Eight(0xF68D_2C9E ^ 0x37) == 0xAFFC_9660
    ensures Eight(0xAFFC_9660 ^ 0x38) == 0x651F_2550
    ensures Eight(0x651F_2550 ^ 0x39) == 0x340B_C6D9
  {
  }

  lemma NineCheckWord()
    ensures NumberOf(BitsOf(0x340B_C6D9 ^ 0xFFFF_FFFF)) == 0xCBF4_3926
  {
    MaskValues();
    hide Mask, NumberOf;
    WordOfNumber(0xCBF4_3926, 0xCBF4_3926);
  }
}
