/** Byte strings as the store sees them: the lexicographic order of `std::string`
    (bytes compared as unsigned), and the little-endian integers that both file
    formats are made of. */
module ByteStrings {

  type byte = x: int | 0 <= x < 256
  type Bytes = seq<byte>

  function Repeat<T>(x: T, n: nat): (s: seq<T>)
    ensures |s| == n && forall i :: 0 <= i < n ==> s[i] == x
  {
    seq(n, i => x)
  }

  datatype Option<+T> = None | Some(value: T)

  const TWO_32: int := 0x1_0000_0000
  const TWO_63: int := 0x8000_0000_0000_0000
  const TWO_64: int := 0x1_0000_0000_0000_0000

  /** A length that survives the cast to `uint32_t`. */
  predicate Short(s: Bytes) {
    |s| < TWO_32
  }

  predicate IsInt64(v: int) {
    -TWO_63 <= v < TWO_63
  }

  // ---------------------------------------------------------------- order

  predicate Less(a: Bytes, b: Bytes) {
    b != [] && (a == [] || a[0] < b[0] || (a[0] == b[0] && Less(a[1..], b[1..])))
  }

  predicate LessEq(a: Bytes, b: Bytes) {
    a == b || Less(a, b)
  }

  lemma {:induction false} LessIrreflexive(a: Bytes)
    ensures !Less(a, a)
  {
    if a != [] { LessIrreflexive(a[1..]); }
  }

  lemma {:induction false} LessTransitive(a: Bytes, b: Bytes, c: Bytes)
    requires Less(a, b) && Less(b, c)
    ensures Less(a, c)
  {
    if a != [] && a[0] == b[0] && b[0] == c[0] {
      LessTransitive(a[1..], b[1..], c[1..]);
    }
  }

  lemma {:induction false} LessTotal(a: Bytes, b: Bytes)
    ensures Less(a, b) || a == b || Less(b, a)
  {
    if a != [] && b != [] && a[0] == b[0] {
      LessTotal(a[1..], b[1..]);
      if a[1..] == b[1..] {
        assert a == [a[0]] + a[1..] == [b[0]] + b[1..] == b;
      }
    }
  }

  lemma LessAsymmetric(a: Bytes, b: Bytes)
    requires Less(a, b)
    ensures !Less(b, a) && a != b
  {
    if Less(b, a) { LessTransitive(a, b, a); }
    LessIrreflexive(a);
  }

  lemma LessEqTransitive(a: Bytes, b: Bytes, c: Bytes)
    requires LessEq(a, b) && LessEq(b, c)
    ensures LessEq(a, c)
    ensures Less(a, b) || Less(b, c) ==> Less(a, c)
  {
    if a != b && b != c { LessTransitive(a, b, c); }
  }

  // ---------------------------------------------------------------- little-endian integers

  function PutU32(v: int): (s: Bytes)
    ensures |s| == 4
  {
    var w1 := v / 256;
    var w2 := w1 / 256;
    var w3 := w2 / 256;
    [v % 256, w1 % 256, w2 % 256, w3 % 256]
  }

  function LoadU32(s: Bytes, at: nat): (v: int)
    requires at + 4 <= |s|
    ensures 0 <= v < TWO_32
  {
    var b0: int, b1: int, b2: int, b3: int := s[at], s[at + 1], s[at + 2], s[at + 3];
    b0 + 0x100 * b1 + 0x1_0000 * b2 + 0x100_0000 * b3
  }

  function PutU64(v: int): (s: Bytes)
    ensures |s| == 8
  {
    PutU32(v % TWO_32) + PutU32(v / TWO_32 % TWO_32)
  }

  function LoadU64(s: Bytes, at: nat): (v: int)
    requires at + 8 <= |s|
    ensures 0 <= v < TWO_64
  {
    LoadU32(s, at) + TWO_32 * LoadU32(s, at + 4)
  }

  lemma LoadPutU32(v: int, s: Bytes, at: nat)
    requires 0 <= v < TWO_32
    requires at + 4 <= |s| && s[at..at + 4] == PutU32(v)
    ensures LoadU32(s, at) == v
  {
    var p := s[at..at + 4];
    assert s[at] == p[0] && s[at + 1] == p[1] && s[at + 2] == p[2] && s[at + 3] == p[3];
  }

  lemma LoadPutU64(v: int, s: Bytes, at: nat)
    requires 0 <= v < TWO_64
    requires at + 8 <= |s| && s[at..at + 8] == PutU64(v)
    ensures LoadU64(s, at) == v
  {
    var p := s[at..at + 8];
    assert s[at..at + 4] == p[..4] == PutU32(v % TWO_32);
    assert s[at + 4..at + 8] == p[4..] == PutU32(v / TWO_32 % TWO_32);
    LoadPutU32(v % TWO_32, s, at);
    LoadPutU32(v / TWO_32 % TWO_32, s, at + 4);
  }

  lemma LowDigit(a: int, x: int, b: int, y: int)
    requires 0 <= a < 256 && 0 <= b < 256
    requires a + 256 * x == b + 256 * y
    ensures a == b && x == y
  {
  }

  /** Four bytes are determined by the number they spell. */
  lemma LoadU32Injective(s: Bytes, t: Bytes)
    requires |s| == |t| == 4
    ensures LoadU32(s, 0) == LoadU32(t, 0) ==> s == t
  {
    var s1: int, s2: int, s3: int := s[1], s[2], s[3];
    var t1: int, t2: int, t3: int := t[1], t[2], t[3];
    if LoadU32(s, 0) == LoadU32(t, 0) {
      LowDigit(s[0], s1 + 256 * s2 + 65536 * s3, t[0], t1 + 256 * t2 + 65536 * t3);
      LowDigit(s1, s2 + 256 * s3, t1, t2 + 256 * t3);
      LowDigit(s2, s3, t2, t3);
    }
  }

  /** `static_cast<uint64_t>` of an `int64_t`, and back. */
  function ToU64(v: int): (u: int)
    requires IsInt64(v)
    ensures 0 <= u < TWO_64
  {
    if v < 0 then v + TWO_64 else v
  }

  function FromU64(u: int): (v: int)
    requires 0 <= u < TWO_64
    ensures IsInt64(v)
    ensures ToU64(v) == u
  {
    if u < TWO_63 then u else u - TWO_64
  }

  lemma PutLoadU32(s: Bytes, at: nat)
    requires at + 4 <= |s|
    ensures PutU32(LoadU32(s, at)) == s[at..at + 4]
  {
    var b0: int, b1: int, b2: int, b3: int := s[at], s[at + 1], s[at + 2], s[at + 3];
    var w1 := b1 + 0x100 * b2 + 0x1_0000 * b3;
    var w2 := b2 + 0x100 * b3;
    assert LoadU32(s, at) == b0 + 0x100 * w1 && w1 == b1 + 0x100 * w2;
    assert LoadU32(s, at) / 256 == w1 && w1 / 256 == w2 && w2 / 256 == b3;
  }

  lemma PutLoadU64(s: Bytes, at: nat)
    requires at + 8 <= |s|
    ensures PutU64(LoadU64(s, at)) == s[at..at + 8]
  {
    hide PutU32, LoadU32;
    PutLoadU32(s, at);
    PutLoadU32(s, at + 4);
    var low, high := LoadU32(s, at), LoadU32(s, at + 4);
    assert LoadU64(s, at) % TWO_32 == low && LoadU64(s, at) / TWO_32 % TWO_32 == high;
    assert s[at..at + 8] == s[at..at + 4] + s[at + 4..at + 8];
  }

  lemma PutLoadI64(s: Bytes, at: nat)
    requires at + 8 <= |s|
    ensures PutI64(LoadI64(s, at)) == s[at..at + 8]
  {
    hide LoadU64, PutU64;
    PutLoadU64(s, at);
  }

  function PutI64(v: int): (s: Bytes)
    requires IsInt64(v)
    ensures |s| == 8
  {
    PutU64(ToU64(v))
  }

  function LoadI64(s: Bytes, at: nat): (v: int)
    requires at + 8 <= |s|
    ensures IsInt64(v)
  {
    FromU64(LoadU64(s, at))
  }

  lemma LoadPutI64(v: int, s: Bytes, at: nat)
    requires IsInt64(v)
    requires at + 8 <= |s| && s[at..at + 8] == PutI64(v)
    ensures LoadI64(s, at) == v
  {
    LoadPutU64(ToU64(v), s, at);
  }

  // ---------------------------------------------------------------- pieces

  function Joined(pieces: seq<Bytes>): (s: Bytes) {
    if pieces == [] then [] else pieces[0] + Joined(pieces[1..])
  }

  lemma {:induction false} JoinedSnoc(pieces: seq<Bytes>, last: Bytes)
    ensures Joined(pieces + [last]) == Joined(pieces) + last
    decreases |pieces|
  {
    if pieces == [] {
      assert last + [] == last;
    } else {
      assert (pieces + [last])[1..] == pieces[1..] + [last];
      JoinedSnoc(pieces[1..], last);
    }
  }
}
