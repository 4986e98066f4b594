/** Machine words as rows of bits, least significant first, so that exclusive or,
    shifts and single-bit tests can be reasoned about bit by bit. */
module Bits {
  import opened ByteStrings

  type Word = seq<bool>

  function NumberOf(w: Word): (v: nat)
    decreases |w|
  {
    if w == [] then 0 else (if w[0] then 1 else 0) + 2 * NumberOf(w[1..])
  }

  function WordOf(v: nat, width: nat): (w: Word)
    ensures |w| == width
    decreases width, v
  {
    if width == 0 then [] else [v % 2 == 1] + WordOf(v / 2, width - 1)
  }

  function Zeros(n: nat): (w: Word)
    ensures |w| == n
  {
    Repeat(false, n)
  }

  function Ones(n: nat): (w: Word)
    ensures |w| == n
  {
    Repeat(true, n)
  }

  function Xor(a: Word, b: Word): (w: Word)
    requires |a| == |b|
    ensures |w| == |a|
  {
    seq(|a|, i requires 0 <= i < |a| => a[i] != b[i])
  }

  function PowerOfTwo(n: nat): (p: nat)
    ensures p >= 1
  {
    if n == 0 then 1 else 2 * PowerOfTwo(n - 1)
  }

  lemma {:induction false} NumberInRange(w: Word)
    ensures NumberOf(w) < PowerOfTwo(|w|)
    decreases |w|
  {
    if w != [] { NumberInRange(w[1..]); }
  }

  lemma {:induction false} WordRoundTrip(w: Word)
    ensures WordOf(NumberOf(w), |w|) == w
    decreases |w|
  {
    if w != [] {
      WordRoundTrip(w[1..]);
      assert NumberOf(w) / 2 == NumberOf(w[1..]);
      assert [w[0]] + w[1..] == w;
    }
  }

  lemma {:induction false} NumberRoundTrip(v: nat, width: nat)
    requires v < PowerOfTwo(width)
    ensures NumberOf(WordOf(v, width)) == v
    decreases width
  {
    if width > 0 {
      NumberRoundTrip(v / 2, width - 1);
      assert WordOf(v, width)[1..] == WordOf(v / 2, width - 1);
    }
  }

  lemma Power8()
    ensures PowerOfTwo(8) == 256
  {
  }

  lemma Power32()
    ensures PowerOfTwo(32) == TWO_32
  {
    PowerPlusEight(8);
    PowerPlusEight(16);
    PowerPlusEight(24);
  }

  lemma Power64()
    ensures PowerOfTwo(64) == TWO_64
  {
    Power32();
    PowerPlusEight(32);
    PowerPlusEight(40);
    PowerPlusEight(48);
    PowerPlusEight(56);
  }

  lemma PowerPlusEight(n: nat)
    ensures PowerOfTwo(n + 8) == 256 * PowerOfTwo(n)
  {
    assert PowerOfTwo(n + 2) == 4 * PowerOfTwo(n);
    assert PowerOfTwo(n + 4) == 4 * PowerOfTwo(n + 2);
    assert PowerOfTwo(n + 6) == 4 * PowerOfTwo(n + 4);
  }

  lemma XorCancels(c: Word, a: Word, b: Word)
    requires |a| == |b| == |c|
    requires Xor(c, a) == Xor(c, b)
    ensures a == b
  {
    forall i | 0 <= i < |a| ensures a[i] == b[i] {
      assert Xor(c, a)[i] == Xor(c, b)[i];
    }
  }

  lemma XorCommutes(a: Word, b: Word)
    requires |a| == |b|
    ensures Xor(a, b) == Xor(b, a)
  {
  }

  // ---------------------------------------------------------------- bits of a byte

  predicate TestBit(b: byte, i: nat)
    requires i < 8
  {
    WordOf(b, 8)[i]
  }

  /** `b | (1u << i)`. */
  function SetBit(b: byte, i: nat): (r: byte)
    requires i < 8
  {
    var w := WordOf(b, 8)[i := true];
    NumberInRange(w);
    Power8();
    NumberOf(w)
  }

  lemma SetThenTest(b: byte, i: nat, j: nat)
    requires i < 8 && j < 8
    ensures TestBit(SetBit(b, i), j) == (i == j || TestBit(b, j))
  {
    WordRoundTrip(WordOf(b, 8)[i := true]);
  }

  lemma ZeroByteClear(i: nat)
    requires i < 8
    ensures !TestBit(0, i)
  {
    ZeroWord(8);
  }

  lemma {:induction false} ZeroWord(width: nat)
    ensures WordOf(0, width) == Zeros(width)
  {
    if width > 0 { ZeroWord(width - 1); }
  }

  // ---------------------------------------------------------------- 64-bit hashing arithmetic

  function Xor64(a: nat, b: nat): (v: nat)
    ensures v < TWO_64
  {
    var w := Xor(WordOf(a, 64), WordOf(b, 64));
    NumberInRange(w);
    Power64();
    NumberOf(w)
  }

  function Mul64(a: nat, b: nat): (v: nat)
    ensures v < TWO_64
  {
    a * b % TWO_64
  }
}
