/** CRC-32 with the reflected polynomial 0xEDB88320 (section 8 of RFC 1952). The
    reference is the bit-at-a-time register; the program's byte-at-a-time table
    walk is proved equal to it. */
module Crc32 {
  import opened ByteStrings
  import opened Bits

  type Register = w: Word | |w| == 32 witness Zeros(32)

  /** 0xEDB88320, least significant bit first. */
  const POLYNOMIAL: Register := [
    false, false, false, false,  false, true, false, false,
    true, true, false, false,  false, false, false, true,
    false, false, false, true,  true, true, false, true,
    true, false, true, true,  false, true, true, true]
  const ONES: Register := Ones(32)

  function Shift(c: Register, n: nat): (r: Register)
    requires n <= 32
  {
    c[n..] + Zeros(n)
  }

  // ---------------------------------------------------------------- the shift register

  function BitStep(c: Register): (r: Register) {
    if c[0] then Xor(POLYNOMIAL, Shift(c, 1)) else Shift(c, 1)
  }

  function BitSteps(c: Register, n: nat): (r: Register)
    decreases n, c
  {
    if n == 0 then c else BitSteps(BitStep(c), n - 1)
  }

  function AbsorbByte(c: Register, b: byte): (r: Register) {
    BitSteps(Xor(c, WordOf(b, 32)), 8)
  }

  function Absorb(c: Register, data: Bytes): (r: Register)
    decreases |data|
  {
    if data == [] then c else Absorb(AbsorbByte(c, data[0]), data[1..])
  }

  /** The checksum as a number, 0 to 2^32 - 1. */
  function Crc(data: Bytes): (v: int)
    ensures 0 <= v < TWO_32
  {
    var w := Xor(Absorb(ONES, data), ONES);
    NumberInRange(w);
    Power32();
    NumberOf(w)
  }

  // ---------------------------------------------------------------- one step: linear and injective

  lemma BitStepLinear(x: Register, y: Register)
    ensures BitStep(Xor(x, y)) == Xor(BitStep(x), BitStep(y))
  {
    assert Shift(Xor(x, y), 1) == Xor(Shift(x, 1), Shift(y, 1));
  }

  lemma {:induction false} BitStepsLinear(x: Register, y: Register, n: nat)
    ensures BitSteps(Xor(x, y), n) == Xor(BitSteps(x, n), BitSteps(y, n))
    decreases n
  {
    if n > 0 {
      BitStepLinear(x, y);
      BitStepsLinear(BitStep(x), BitStep(y), n - 1);
    }
  }

  /** The polynomial's top bit is set and a shift clears it, so the bit that was
      shifted out can be read back from the result. */
  lemma BitStepInjective(x: Register, y: Register)
    requires BitStep(x) == BitStep(y)
    ensures x == y
  {
    assert BitStep(x)[31] == x[0];
    assert BitStep(y)[31] == y[0];
    if x[0] { XorCancels(POLYNOMIAL, Shift(x, 1), Shift(y, 1)); }
    forall i | 1 <= i < 32 ensures x[i] == y[i] {
      assert Shift(x, 1)[i - 1] == x[i] && Shift(y, 1)[i - 1] == y[i];
    }
  }

  lemma {:induction false} BitStepsInjective(x: Register, y: Register, n: nat)
    requires BitSteps(x, n) == BitSteps(y, n)
    ensures x == y
    decreases n
  {
    if n > 0 {
      BitStepsInjective(BitStep(x), BitStep(y), n - 1);
      BitStepInjective(x, y);
    }
  }

  // ---------------------------------------------------------------- the table walk

  /** Steps on a register whose low bits are clear only shift it. */
  lemma {:induction false} StepsOnClearBits(x: Register, n: nat)
    requires n <= 32 && forall i :: 0 <= i < n ==> !x[i]
    ensures BitSteps(x, n) == Shift(x, n)
    decreases n
  {
    if n == 0 {
      assert Shift(x, 0) == x;
    } else {
      var y := Shift(x, 1);
      forall i | 0 <= i < n - 1 ensures !y[i] { assert y[i] == x[i + 1]; }
      StepsOnClearBits(y, n - 1);
      assert Shift(y, n - 1) == Shift(x, n);
    }
  }

  function LowByte(x: Register): (r: Register) {
    x[..8] + Zeros(24)
  }

  lemma {:induction false} WordOfSmall(v: nat, narrow: nat, wide: nat)
    requires v < PowerOfTwo(narrow) && narrow <= wide
    ensures WordOf(v, wide) == WordOf(v, narrow) + Zeros(wide - narrow)
    decreases wide
  {
    if narrow == 0 {
      ZeroWord(wide);
    } else {
      WordOfSmall(v / 2, narrow - 1, wide - 1);
    }
  }

  lemma ByteWord(b: byte)
    ensures WordOf(b, 32) == WordOf(b, 8) + Zeros(24)
  {
    Power8();
    WordOfSmall(b, 8, 32);
  }

  /** One table lookup does what eight single-bit steps do. */
  lemma TableStep(c: Register, b: byte)
    ensures Xor(BitSteps(LowByte(Xor(c, WordOf(b, 32))), 8), Shift(c, 8)) == AbsorbByte(c, b)
  {
    var x := Xor(c, WordOf(b, 32));
    var high := Zeros(8) + x[8..];
    ByteWord(b);
    assert x == Xor(LowByte(x), high);
    BitStepsLinear(LowByte(x), high, 8);
    StepsOnClearBits(high, 8);
    assert Shift(high, 8) == Shift(c, 8);
  }

  /** The table slot the low byte of a register selects. */
  function Slot(x: Register): (i: byte)
    ensures WordOf(i, 32) == LowByte(x)
  {
    NumberInRange(x[..8]);
    Power8();
    var i: byte := NumberOf(x[..8]);
    ByteWord(i);
    WordRoundTrip(x[..8]);
    i
  }

  ghost predicate IsCrcTable(table: seq<Register>) {
    |table| == 256 && forall i: byte :: table[i] == BitSteps(WordOf(i, 32), 8)
  }

  method TableEntry(i: byte) returns (c: Register)
    ensures c == BitSteps(WordOf(i, 32), 8)
  {
    hide BitStep, WordOf;
    c := WordOf(i, 32);
    for bit := 0 to 8
      invariant BitSteps(c, 8 - bit) == BitSteps(WordOf(i, 32), 8)
    {
      c := BitStep(c);
    }
  }

  method MakeTable() returns (table: seq<Register>)
    ensures IsCrcTable(table)
  {
    hide BitSteps, WordOf;
    table := [];
    for i := 0 to 256
      invariant |table| == i && forall j: byte :: j < i ==> table[j] == BitSteps(WordOf(j, 32), 8)
    {
      var c := TableEntry(i);
      table := table + [c];
    }
  }

  lemma {:induction false} AbsorbConcat(c: Register, s: Bytes, t: Bytes)
    ensures Absorb(c, s + t) == Absorb(Absorb(c, s), t)
    decreases |s|
  {
    if s == [] {
      assert s + t == t;
    } else {
      assert (s + t)[1..] == s[1..] + t;
      AbsorbConcat(AbsorbByte(c, s[0]), s[1..], t);
    }
  }

  function TableUpdate(table: seq<Register>, c: Register, b: byte): (r: Register)
    requires |table| == 256
  {
    Xor(table[Slot(Xor(c, WordOf(b, 32)))], Shift(c, 8))
  }

  lemma TableUpdateAbsorbs(table: seq<Register>, data: Bytes, i: nat)
    requires IsCrcTable(table) && i < |data|
    ensures TableUpdate(table, Absorb(ONES, data[..i]), data[i]) == Absorb(ONES, data[..i + 1])
  {
    TableStep(Absorb(ONES, data[..i]), data[i]);
    AbsorbConcat(ONES, data[..i], [data[i]]);
    assert data[..i + 1] == data[..i] + [data[i]];
  }

  method Checksum(data: Bytes) returns (v: int)
    ensures v == Crc(data)
  {
    var table := MakeTable();
    var c := ONES;
    for i := 0 to |data|
      invariant c == Absorb(ONES, data[..i])
    {
      TableUpdateAbsorbs(table, data, i);
      c := TableUpdate(table, c, data[i]);
    }
    assert data[..|data|] == data;
    v := NumberOf(Xor(c, ONES));
  }

  // ---------------------------------------------------------------- what the checksum detects

  lemma AbsorbByteInjective(c: Register, d: Register, a: byte, b: byte)
    requires AbsorbByte(c, a) == AbsorbByte(d, b)
    ensures c == d ==> a == b
    ensures a == b ==> c == d
  {
    var x, y := WordOf(a, 32), WordOf(b, 32);
    BitStepsInjective(Xor(c, x), Xor(d, y), 8);
    if c == d {
      XorCancels(c, x, y);
      Power32();
      NumberRoundTrip(a, 32);
      NumberRoundTrip(b, 32);
    }
    if a == b {
      XorCommutes(c, x);
      XorCommutes(d, x);
      XorCancels(x, c, d);
    }
  }

  lemma {:induction false} AbsorbInjective(c: Register, d: Register, data: Bytes)
    requires Absorb(c, data) == Absorb(d, data)
    ensures c == d
    decreases |data|
  {
    if data != [] {
      AbsorbInjective(AbsorbByte(c, data[0]), AbsorbByte(d, data[0]), data[1..]);
      AbsorbByteInjective(c, d, data[0], data[0]);
    }
  }

  /** Any change confined to one byte changes the checksum. */
  lemma OneByteChangesCrc(s: Bytes, i: nat, b: byte)
    requires i < |s| && b != s[i]
    ensures Crc(s[i := b]) != Crc(s)
  {
    var c := Absorb(ONES, s[..i]);
    var tail := s[i + 1..];
    assert s == s[..i] + [s[i]] + tail;
    assert s[i := b] == s[..i] + [b] + tail;
    AbsorbConcat(ONES, s[..i] + [s[i]], tail);
    AbsorbConcat(ONES, s[..i] + [b], tail);
    AbsorbConcat(ONES, s[..i], [s[i]]);
    AbsorbConcat(ONES, s[..i], [b]);
    var x, y := Absorb(ONES, s), Absorb(ONES, s[i := b]);
    if x == y {
      AbsorbInjective(AbsorbByte(c, s[i]), AbsorbByte(c, b), tail);
      AbsorbByteInjective(c, c, s[i], b);
    }
    if Crc(s) == Crc(s[i := b]) {
      WordRoundTrip(Xor(x, ONES));
      WordRoundTrip(Xor(y, ONES));
      XorCommutes(x, ONES);
      XorCommutes(y, ONES);
      XorCancels(ONES, x, y);
    }
  }
}
