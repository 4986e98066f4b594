/** The bloom filter stored in every SSTable: a bit array with the probe count in one
    trailing byte. All that matters for correctness is that it never denies a key it
    was built from, whatever the hash does. */
module Bloom {
  import opened ByteStrings
  import opened Bits

  const MIN_PROBES: nat := 1
  const MAX_PROBES: nat := 30
  const MIN_BITS: nat := 64

  // ---------------------------------------------------------------- hashing

  function Fnv1a(data: Bytes, h: nat): (r: nat)
    requires h < TWO_64
    ensures r < TWO_64
    decreases |data|
  {
    if data == [] then h else Fnv1a(data[1..], Mul64(Xor64(h, data[0]), 0x100_0000_01b3))
  }

  function Mix(z: nat): (r: nat)
    ensures r < TWO_64
  {
    var a := Mul64(Xor64(z, z / 0x4000_0000), 0xbf58_476d_1ce4_e5b9);
    var b := Mul64(Xor64(a, a / 0x800_0000), 0x94d0_49bb_1331_11eb);
    Xor64(b, b / 0x8000_0000)
  }

  datatype Probe = Probe(h1: nat, h2: nat)

  /** Both halves of the hash; the stride is forced odd. */
  function Halves(h: nat): (p: Probe)
    requires h < TWO_64
    ensures p.h1 < TWO_32 && p.h2 < TWO_32 && p.h2 % 2 == 1
  {
    var stride := h / TWO_32;
    Probe(h % TWO_32, if stride % 2 == 0 then stride + 1 else stride)
  }

  function ProbeFor(key: Bytes): (p: Probe)
    ensures p.h1 < TWO_32 && p.h2 < TWO_32 && p.h2 % 2 == 1
  {
    Halves(Mix(Fnv1a(key, 0xcbf2_9ce4_8422_2325)))
  }

  /** The i-th probe position: `pos += h2` in 32-bit arithmetic, starting from h1. */
  function Position(key: Bytes, i: nat): (pos: nat)
    ensures pos < TWO_32
  {
    if i == 0 then ProbeFor(key).h1 else (Position(key, i - 1) + ProbeFor(key).h2) % TWO_32
  }

  // ---------------------------------------------------------------- sizing

  function OptimalProbes(bitsPerKey: int): (k: nat)
    ensures MIN_PROBES <= k <= MAX_PROBES
  {
    var k := (bitsPerKey as real * 0.69 + 0.5).Floor;
    if k < 1 then 1 else if k > 30 then 30 else k
  }

  function BitsFor(keyCount: nat, bitsPerKey: int): (bits: nat)
    ensures bits >= MIN_BITS && bits % 8 == 0
  {
    var bits := keyCount * (if bitsPerKey < 1 then 1 else bitsPerKey);
    var rounded := (bits + 7) / 8 * 8;
    if rounded < MIN_BITS then MIN_BITS else rounded
  }

  // ---------------------------------------------------------------- the block

  function SetBitAt(bitmap: Bytes, bit: nat): (r: Bytes)
    requires bit / 8 < |bitmap|
    ensures |r| == |bitmap|
  {
    bitmap[bit / 8 := SetBit(bitmap[bit / 8], bit % 8)]
  }

  predicate BitAt(bitmap: Bytes, bit: nat)
    requires bit / 8 < |bitmap|
  {
    TestBit(bitmap[bit / 8], bit % 8)
  }

  lemma SetThenBitAt(bitmap: Bytes, a: nat, b: nat)
    requires a / 8 < |bitmap| && b / 8 < |bitmap|
    ensures BitAt(SetBitAt(bitmap, a), b) == (a == b || BitAt(bitmap, b))
  {
    SetThenTest(bitmap[a / 8], a % 8, b % 8);
  }

  /** The first `probes` probe bits of a key, set. */
  function AddKey(bitmap: Bytes, key: Bytes, probes: nat): (r: Bytes)
    requires |bitmap| > 0
    ensures |r| == |bitmap|
    decreases probes
  {
    if probes == 0 then bitmap
    else SetBitAt(AddKey(bitmap, key, probes - 1), Position(key, probes - 1) % (|bitmap| * 8))
  }

  function AddKeys(bitmap: Bytes, keys: seq<Bytes>, probes: nat): (r: Bytes)
    requires |bitmap| > 0
    ensures |r| == |bitmap|
  {
    if keys == [] then bitmap
    else AddKey(AddKeys(bitmap, keys[..|keys| - 1], probes), keys[|keys| - 1], probes)
  }

  function Block(keys: seq<Bytes>, bitsPerKey: int): (block: Bytes)
    ensures |block| == BitsFor(|keys|, bitsPerKey) / 8 + 1
  {
    AddKeys(Repeat<byte>(0, BitsFor(|keys|, bitsPerKey) / 8), keys, OptimalProbes(bitsPerKey))
    + [OptimalProbes(bitsPerKey)]
  }

  method Build(keys: seq<Bytes>, bitsPerKey: int) returns (block: Bytes)
    ensures block == Block(keys, bitsPerKey)
  {
    hide ProbeFor, SetBitAt;
    var bits := BitsFor(|keys|, bitsPerKey);
    var k := OptimalProbes(bitsPerKey);
    var blank := Repeat<byte>(0, bits / 8);
    block := blank;
    for n := 0 to |keys|
      invariant |block| == bits / 8 && block == AddKeys(blank, keys[..n], k)
    {
      var p := ProbeFor(keys[n]);
      var pos := p.h1;
      ghost var before := block;
      for i := 0 to k
        invariant pos == Position(keys[n], i)
        invariant |block| == bits / 8 && block == AddKey(before, keys[n], i)
      {
        block := SetBitAt(block, pos % bits);
        pos := (pos + p.h2) % TWO_32;
      }
      assert keys[..n + 1][..n] == keys[..n];
    }
    assert keys[..|keys|] == keys;
    block := block + [k];
  }

  // ---------------------------------------------------------------- asking

  /** What a reader makes of a block: every probe bit of the key is set, or the block is
      not one the writer could have produced. */
  ghost predicate MayContain(block: Bytes, key: Bytes) {
    |block| < 2
    || block[|block| - 1] < MIN_PROBES
    || block[|block| - 1] > MAX_PROBES
    || forall i :: 0 <= i < block[|block| - 1] ==> BitAt(block, Position(key, i) % ((|block| - 1) * 8))
  }

  method Query(block: Bytes, key: Bytes) returns (possible: bool)
    ensures possible == MayContain(block, key)
  {
    hide ProbeFor, BitAt;
    if |block| < 2 { return true; }
    var k := block[|block| - 1];
    if k < MIN_PROBES || k > MAX_PROBES { return true; }
    var bits := (|block| - 1) * 8;
    var p := ProbeFor(key);
    var pos := p.h1;
    for i := 0 to k
      invariant pos == Position(key, i)
      invariant forall j :: 0 <= j < i ==> BitAt(block, Position(key, j) % bits)
    {
      if !BitAt(block, pos % bits) { return false; }
      pos := (pos + p.h2) % TWO_32;
    }
    return true;
  }

  // ---------------------------------------------------------------- what a filter holds

  /** The i-th probe is i strides past the first, in 32-bit arithmetic. */
  lemma {:induction false} PositionIsStrides(key: Bytes, i: nat)
    ensures Position(key, i) == (ProbeFor(key).h1 + i * ProbeFor(key).h2) % TWO_32
    decreases i
  {
    hide ProbeFor;
    var h1, h2 := ProbeFor(key).h1, ProbeFor(key).h2;
    if i == 0 {
      SmallWrap(h1);
    } else {
      PositionIsStrides(key, i - 1);
      WrapOnce(h1 + (i - 1) * h2, h2);
      assert h1 + (i - 1) * h2 + h2 == h1 + i * h2;
    }
  }

  lemma SmallWrap(a: nat)
    requires a < TWO_32
    ensures a % TWO_32 == a
  {
  }

  lemma WrapOnce(a: nat, b: nat)
    ensures (a % TWO_32 + b) % TWO_32 == (a + b) % TWO_32
  {
    assert a + b == (a % TWO_32 + b) + TWO_32 * (a / TWO_32);
  }

  /** The bit is one of the key's first `probes` probes. */
  ghost predicate Probed(key: Bytes, probes: nat, bits: nat, bit: nat)
    requires bits > 0
  {
    exists i :: 0 <= i < probes && Position(key, i) % bits == bit
  }

  ghost predicate ProbedByAny(keys: seq<Bytes>, probes: nat, bits: nat, bit: nat)
    requires bits > 0
  {
    exists n :: 0 <= n < |keys| && Probed(keys[n], probes, bits, bit)
  }

  lemma {:induction false} AddKeyExact(bitmap: Bytes, key: Bytes, probes: nat, bit: nat)
    requires bit / 8 < |bitmap|
    ensures BitAt(AddKey(bitmap, key, probes), bit) <==> BitAt(bitmap, bit) || Probed(key, probes, |bitmap| * 8, bit)
    decreases probes
  {
    hide Position, BitAt, SetBitAt;
    var bits := |bitmap| * 8;
    if probes > 0 {
      AddKeyExact(bitmap, key, probes - 1, bit);
      SetThenBitAt(AddKey(bitmap, key, probes - 1), Position(key, probes - 1) % bits, bit);
      if Probed(key, probes, bits, bit) {
        var i :| 0 <= i < probes && Position(key, i) % bits == bit;
        assert i < probes - 1 ==> Probed(key, probes - 1, bits, bit);
      }
    }
  }

  lemma {:induction false} AddKeysExact(bitmap: Bytes, keys: seq<Bytes>, probes: nat, bit: nat)
    requires bit / 8 < |bitmap|
    ensures BitAt(AddKeys(bitmap, keys, probes), bit) <==>
      BitAt(bitmap, bit) || ProbedByAny(keys, probes, |bitmap| * 8, bit)
    decreases |keys|
  {
    hide BitAt, Probed, ProbedByAny, AddKey;
    var bits := |bitmap| * 8;
    if keys == [] {
      ProbedByNone(probes, bits, bit);
    } else {
      var last := |keys| - 1;
      AddKeysExact(bitmap, keys[..last], probes, bit);
      AddKeyExact(AddKeys(bitmap, keys[..last], probes), keys[last], probes, bit);
      assert keys == keys[..last] + [keys[last]];
      ProbedByLast(keys[..last], keys[last], probes, bits, bit);
    }
  }

  lemma ProbedByNone(probes: nat, bits: nat, bit: nat)
    requires bits > 0
    ensures !ProbedByAny([], probes, bits, bit)
  {
  }

  lemma ProbedByLast(keys: seq<Bytes>, key: Bytes, probes: nat, bits: nat, bit: nat)
    requires bits > 0
    ensures ProbedByAny(keys + [key], probes, bits, bit) <==>
      ProbedByAny(keys, probes, bits, bit) || Probed(key, probes, bits, bit)
  {
    hide Probed;
    var all := keys + [key];
    if ProbedByAny(keys, probes, bits, bit) {
      var n :| 0 <= n < |keys| && Probed(keys[n], probes, bits, bit);
      assert Probed(all[n], probes, bits, bit);
    }
    if Probed(key, probes, bits, bit) { assert Probed(all[|keys|], probes, bits, bit); }
  }

  /** The reader recovers the bit count and the probe count from the block alone. */
  lemma BlockDescribesItself(keys: seq<Bytes>, bitsPerKey: int)
    ensures var block := Block(keys, bitsPerKey);
      && |block| >= 2
      && block[|block| - 1] == OptimalProbes(bitsPerKey)
      && (|block| - 1) * 8 == BitsFor(|keys|, bitsPerKey)
  {
    hide OptimalProbes;
  }

  lemma BlankIsClear(blank: Bytes, bit: nat)
    requires bit / 8 < |blank| && forall i :: 0 <= i < |blank| ==> blank[i] == 0
    ensures !BitAt(blank, bit)
  {
    ZeroByteClear(bit % 8);
  }

  /** A bit of the filter is set exactly when it is a probe of a key it was built from. */
  lemma BlockExact(keys: seq<Bytes>, bitsPerKey: int, bit: nat)
    requires bit < BitsFor(|keys|, bitsPerKey)
    ensures bit / 8 < |Block(keys, bitsPerKey)|
    ensures BitAt(Block(keys, bitsPerKey), bit) <==>
      ProbedByAny(keys, OptimalProbes(bitsPerKey), BitsFor(|keys|, bitsPerKey), bit)
  {
    hide OptimalProbes, BitsFor, ProbedByAny, BitAt, AddKeys;
    var blank := Repeat<byte>(0, BitsFor(|keys|, bitsPerKey) / 8);
    var bitmap := AddKeys(blank, keys, OptimalProbes(bitsPerKey));
    SameBit(bitmap, Block(keys, bitsPerKey), bit);
    AddKeysExact(blank, keys, OptimalProbes(bitsPerKey), bit);
    BlankIsClear(blank, bit);
  }

  /** A key passes exactly when every one of its probes is a probe of some key of the list. */
  lemma PassesExactly(keys: seq<Bytes>, bitsPerKey: int, key: Bytes)
    ensures var k, bits := OptimalProbes(bitsPerKey), BitsFor(|keys|, bitsPerKey);
      MayContain(Block(keys, bitsPerKey), key) <==>
        forall i :: 0 <= i < k ==> ProbedByAny(keys, k, bits, Position(key, i) % bits)
  {
    hide Position, BitAt, OptimalProbes, BitsFor, ProbedByAny, Block;
    var k, bits, block := OptimalProbes(bitsPerKey), BitsFor(|keys|, bitsPerKey), Block(keys, bitsPerKey);
    BlockDescribesItself(keys, bitsPerKey);
    forall i | 0 <= i < k
      ensures BitAt(block, Position(key, i) % bits) <==> ProbedByAny(keys, k, bits, Position(key, i) % bits)
    {
      BlockExact(keys, bitsPerKey, Position(key, i) % bits);
    }
    assert block[|block| - 1] == k && (|block| - 1) * 8 == bits;
    if MayContain(block, key) {
      forall i | 0 <= i < k ensures ProbedByAny(keys, k, bits, Position(key, i) % bits) {
        assert BitAt(block, Position(key, i) % ((|block| - 1) * 8));
      }
    } else {
      var i :| 0 <= i < k && !BitAt(block, Position(key, i) % ((|block| - 1) * 8));
      assert !ProbedByAny(keys, k, bits, Position(key, i) % bits);
    }
  }

  /** A key the filter was built from is never denied. */
  lemma NoFalseNegatives(keys: seq<Bytes>, bitsPerKey: int, key: Bytes)
    requires key in keys
    ensures MayContain(Block(keys, bitsPerKey), key)
  {
    hide Position, MayContain, OptimalProbes, BitsFor, Block;
    var k, bits := OptimalProbes(bitsPerKey), BitsFor(|keys|, bitsPerKey);
    var n :| 0 <= n < |keys| && keys[n] == key;
    forall i | 0 <= i < k ensures ProbedByAny(keys, k, bits, Position(key, i) % bits) {
      assert Probed(keys[n], k, bits, Position(key, i) % bits);
    }
    PassesExactly(keys, bitsPerKey, key);
  }

  lemma SameBit(bitmap: Bytes, block: Bytes, bit: nat)
    requires bit / 8 < |bitmap| && bitmap <= block
    ensures BitAt(block, bit) == BitAt(bitmap, bit)
  {
  }

  /** The filter of an empty table denies every key. */
  lemma EmptyDeniesAll(bitsPerKey: int, key: Bytes)
    ensures !MayContain(Block([], bitsPerKey), key)
  {
    hide Position, OptimalProbes;
    var block := Block([], bitsPerKey);
    BlockDescribesItself([], bitsPerKey);
    var bit := Position(key, 0) % ((|block| - 1) * 8);
    ZeroByteClear(bit % 8);
    assert !BitAt(block, bit);
  }
}
