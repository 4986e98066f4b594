/** What a CRC-32 is apart from any register: the remainder of the message, read as a
    polynomial over the field of two elements, by the generator of the standard. */
module Crc32Polynomial {
  import opened ByteStrings
  import opened Bits
  import opened Crc32

  // ---------------------------------------------------------------- polynomials

  /** The exponents whose coefficient is one. */
  type Poly = set<nat>

  function Plus(a: Poly, b: Poly): Poly {
    (a - b) + (b - a)
  }

  /** Times x^k. */
  function Raise(a: Poly, k: nat): Poly {
    set e | e in a :: e + k
  }

  /** x^32 + x^26 + x^23 + x^22 + x^16 + x^12 + x^11 + x^10 + x^8 + x^7 + x^5 + x^4 + x^2 + x + 1 */
  const GENERATOR: Poly := {32, 26, 23, 22, 16, 12, 11, 10, 8, 7, 5, 4, 2, 1, 0}

  ghost function Largest(a: Poly): (k: nat)
    requires a != {}
    ensures k in a && forall e :: e in a ==> e <= k
  {
    var e :| e in a;
    assert forall other :: other in a ==> other == e || other in a - {e};
    if a - {e} == {} then e
    else
      var k := Largest(a - {e});
      if e < k then k else e
  }

  /** A multiple of the generator: for every power in `q` that many places up. */
  ghost function Times(q: Poly): Poly {
    if q == {} then {}
    else
      var k := Largest(q);
      Plus(Times(q - {k}), Raise(GENERATOR, k))
  }

  /** `d` leaves `r`: below x^32, and a multiple of the generator away. */
  ghost predicate IsRemainder(d: Poly, r: Poly) {
    (forall e :: e in r ==> e < 32) && Congruent(d, r)
  }

  ghost predicate Congruent(a: Poly, b: Poly) {
    exists q :: a == Plus(Times(q), b)
  }

  // ---------------------------------------------------------------- the message

  predicate BitSet(v: nat, i: nat) {
    v / PowerOfTwo(i) % 2 == 1
  }

  /** The first byte is the most significant; within a byte the bits are reversed. */
  predicate MessageBit(data: Bytes, e: nat) {
    e < 8 * |data| && BitSet(data[|data| - 1 - e / 8], 7 - e % 8)
  }

  function MessagePoly(data: Bytes): Poly {
    set e: nat | e < 8 * |data| && MessageBit(data, e)
  }

  predicate PrefixBit(n: nat, e: nat) {
    8 * n <= e
  }

  /** Thirty-two ones over the places of the first 32 bits. */
  function PrefixPoly(n: nat): Poly {
    set e: nat | e < 8 * n + 32 && PrefixBit(n, e)
  }

  /** The message with 32 places added, its first 32 bits or those places complemented. */
  function Dividend(data: Bytes): Poly {
    Plus(Raise(MessagePoly(data), 32), PrefixPoly(|data|))
  }

  predicate CheckBit(v: nat, e: nat) {
    e < 32 && !BitSet(v, 31 - e)
  }

  /** A checksum as a polynomial: complemented, and its bits reversed. */
  function CheckPoly(v: nat): Poly {
    set e: nat | e < 32 && CheckBit(v, e)
  }

  // ---------------------------------------------------------------- sums

  lemma RaiseAt(a: Poly, k: nat, e: nat)
    ensures e in Raise(a, k) <==> e >= k && e - k in a
  {
    if e >= k && e - k in a { assert (e - k) + k == e; }
  }

  lemma PlusAssociates(a: Poly, b: Poly, c: Poly)
    ensures Plus(Plus(a, b), c) == Plus(a, Plus(b, c))
  {
  }

  lemma PlusCommutes(a: Poly, b: Poly)
    ensures Plus(a, b) == Plus(b, a)
  {
  }

  lemma PlusCancels(a: Poly, b: Poly)
    ensures Plus(Plus(a, b), b) == a && Plus(a, a) == {} && Plus(a, {}) == a
  {
  }

  lemma RaisePlus(a: Poly, b: Poly, k: nat)
    ensures Raise(Plus(a, b), k) == Plus(Raise(a, k), Raise(b, k))
  {
    forall e: nat ensures e in Raise(Plus(a, b), k) <==> e in Plus(Raise(a, k), Raise(b, k)) {
      RaiseAt(Plus(a, b), k, e);
      RaiseAt(a, k, e);
      RaiseAt(b, k, e);
    }
  }

  lemma RaiseTwice(a: Poly, j: nat, k: nat)
    ensures Raise(Raise(a, j), k) == Raise(a, j + k) && Raise(a, 0) == a
  {
    forall e: nat ensures e in Raise(Raise(a, j), k) <==> e in Raise(a, j + k) {
      RaiseAt(Raise(a, j), k, e);
      if e >= k { RaiseAt(a, j, e - k); }
      RaiseAt(a, j + k, e);
    }
  }

  // ---------------------------------------------------------------- multiples

  lemma LargestIs(a: Poly, k: nat)
    requires k in a && forall e :: e in a ==> e <= k
    ensures Largest(a) == k
  {
  }

  /** One power more, or one less. */
  lemma {:induction false} TimesToggle(q: Poly, k: nat)
    ensures Times(Plus(q, {k})) == Plus(Times(q), Raise(GENERATOR, k))
    decreases |q|
  {
    hide Raise, Largest;
    var p := Plus(q, {k});
    if q == {} {
      LargestIs({k}, k);
      assert p == {k} && p - {k} == {};
    } else {
      var m := Largest(q);
      var rest := Times(q - {m});
      if k > m {
        LargestIs(p, k);
        assert p - {k} == q;
      } else if k == m {
        assert p == q - {m};
        PlusCancels(rest, Raise(GENERATOR, m));
      } else {
        LargestIs(p, m);
        assert p - {m} == Plus(q - {m}, {k});
        TimesToggle(q - {m}, k);
        ToggleBoth(rest, Raise(GENERATOR, k), Raise(GENERATOR, m));
      }
    }
  }

  lemma ToggleBoth(a: Poly, b: Poly, c: Poly)
    ensures Plus(Plus(a, b), c) == Plus(Plus(a, c), b)
  {
  }

  lemma {:induction false} TimesPlus(q: Poly, p: Poly)
    ensures Times(Plus(q, p)) == Plus(Times(q), Times(p))
    decreases |p|
  {
    hide Raise, Largest, Times;
    if p == {} {
      PlusCancels(q, {});
      PlusCancels(Times(q), {});
      TimesNothing();
    } else {
      var k := Largest(p);
      var rest := p - {k};
      TimesPlus(q, rest);
      assert Plus(q, p) == Plus(Plus(q, rest), {k});
      TimesToggle(Plus(q, rest), k);
      TimesLargest(p);
      PlusAssociates(Times(q), Times(rest), Raise(GENERATOR, k));
    }
  }

  lemma TimesNothing()
    ensures Times({}) == {}
  {
  }

  lemma TimesLargest(q: Poly)
    requires q != {}
    ensures Times(q) == Plus(Times(q - {Largest(q)}), Raise(GENERATOR, Largest(q)))
  {
  }

  lemma {:induction false} TimesRaise(q: Poly, j: nat)
    ensures Times(Raise(q, j)) == Raise(Times(q), j)
    decreases |q|
  {
    hide Largest, Times;
    if q == {} {
      TimesNothing();
      assert Raise({}, j) == {};
    } else {
      var k := Largest(q);
      TimesRaise(q - {k}, j);
      TimesLargest(q);
      RaiseRest(q, k, j);
      TimesToggle(Raise(q - {k}, j), k + j);
      RaisePlus(Times(q - {k}), Raise(GENERATOR, k), j);
      RaiseTwice(GENERATOR, k, j);
    }
  }

  lemma RaiseRest(q: Poly, k: nat, j: nat)
    requires k in q
    ensures Raise(q, j) == Plus(Raise(q - {k}, j), {k + j})
  {
    forall e: nat ensures e in Raise(q, j) <==> e in Plus(Raise(q - {k}, j), {k + j}) {
      RaiseAt(q, j, e);
      RaiseAt(q - {k}, j, e);
    }
  }

  /** A multiple that is not zero reaches at least x^32. */
  lemma {:induction false} TimesDegree(q: Poly)
    ensures forall e :: e in Times(q) ==> q != {} && e <= Largest(q) + 32
    ensures q != {} ==> Largest(q) + 32 in Times(q)
    decreases |q|
  {
    hide Largest, Raise, Times;
    if q == {} {
      TimesNothing();
    } else {
      var k := Largest(q);
      var rest := Times(q - {k});
      TimesDegree(q - {k});
      TimesLargest(q);
      GeneratorDegree(k);
      assert forall e :: e in rest ==> e < k + 32;
      assert k + 32 in Plus(rest, Raise(GENERATOR, k));
      forall e | e in Times(q) ensures e <= k + 32 {
        assert e in rest || e in Raise(GENERATOR, k);
      }
    }
  }

  lemma GeneratorDegree(k: nat)
    ensures k + 32 in Raise(GENERATOR, k) && forall e :: e in Raise(GENERATOR, k) ==> e <= k + 32
  {
    RaiseAt(GENERATOR, k, k + 32);
  }

  // ---------------------------------------------------------------- remainders

  lemma CongruentBy(a: Poly, q: Poly, b: Poly)
    requires a == Plus(Times(q), b)
    ensures Congruent(a, b)
  {
  }

  lemma CongruentSelf(a: Poly)
    ensures Congruent(a, a)
  {
    TimesNothing();
    assert a == Plus({}, a);
    CongruentBy(a, {}, a);
  }

  lemma CongruentTransitive(a: Poly, b: Poly, c: Poly)
    requires Congruent(a, b) && Congruent(b, c)
    ensures Congruent(a, c)
  {
    hide Times;
    var q :| a == Plus(Times(q), b);
    var p :| b == Plus(Times(p), c);
    TimesPlus(q, p);
    PlusAssociates(Times(q), Times(p), c);
    CongruentBy(a, Plus(q, p), c);
  }

  lemma CongruentPlus(a: Poly, b: Poly, c: Poly)
    requires Congruent(a, b)
    ensures Congruent(Plus(a, c), Plus(b, c))
  {
    hide Times;
    var q :| a == Plus(Times(q), b);
    PlusAssociates(Times(q), b, c);
    CongruentBy(Plus(a, c), q, Plus(b, c));
  }

  lemma CongruentRaise(a: Poly, b: Poly, k: nat)
    requires Congruent(a, b)
    ensures Congruent(Raise(a, k), Raise(b, k))
  {
    hide Times, Raise;
    var q :| a == Plus(Times(q), b);
    RaisePlus(Times(q), b, k);
    TimesRaise(q, k);
    CongruentBy(Raise(a, k), Raise(q, k), Raise(b, k));
  }

  lemma SmallMultiple(q: Poly)
    requires forall e :: e in Times(q) ==> e < 32
    ensures q == {}
  {
    hide Times, Largest;
    TimesDegree(q);
  }

  /** There is one remainder. */
  lemma RemainderUnique(d: Poly, r: Poly, s: Poly)
    requires IsRemainder(d, r) && IsRemainder(d, s)
    ensures r == s
  {
    hide Times;
    var q :| d == Plus(Times(q), r);
    var p :| d == Plus(Times(p), s);
    TimesPlus(q, p);
    assert Times(Plus(q, p)) == Plus(r, s);
    SmallMultiple(Plus(q, p));
    TimesNothing();
    assert Plus(r, s) == {};
    assert r - s == {} && s - r == {};
  }

  // ---------------------------------------------------------------- the register

  predicate RegisterBit(c: Register, e: nat) {
    e < 32 && c[31 - e]
  }

  /** The register as a polynomial: its lowest bit is the coefficient of x^31. */
  function RegisterPoly(c: Register): Poly {
    set e: nat | e < 32 && RegisterBit(c, e)
  }

  lemma PolynomialIsGenerator(e: nat)
    requires e < 32
    ensures e in GENERATOR <==> POLYNOMIAL[31 - e]
  {
  }

  lemma RegisterXor(c: Register, d: Register)
    ensures RegisterPoly(Xor(c, d)) == Plus(RegisterPoly(c), RegisterPoly(d))
  {
    forall e: nat ensures e in RegisterPoly(Xor(c, d)) <==> e in Plus(RegisterPoly(c), RegisterPoly(d)) {
      if e < 32 { assert Xor(c, d)[31 - e] == (c[31 - e] != d[31 - e]); }
    }
  }

  /** A step multiplies by x. */
  lemma StepMultiplies(c: Register)
    ensures Congruent(Raise(RegisterPoly(c), 1), RegisterPoly(BitStep(c)))
  {
    hide Raise, RegisterPoly, BitStep, Times, Congruent;
    var a, b := Raise(RegisterPoly(c), 1), RegisterPoly(BitStep(c));
    if c[0] {
      TimesOnce();
      forall e: nat ensures e in a <==> e in Plus(Times({0}), b) { StepBit(c, e); }
      CongruentBy(a, {0}, b);
    } else {
      TimesNothing();
      forall e: nat ensures e in a <==> e in Plus(Times({}), b) { StepBit(c, e); }
      CongruentBy(a, {}, b);
    }
  }

  lemma TimesOnce()
    ensures Times({0}) == GENERATOR
  {
    hide Times, Raise;
    TimesNothing();
    TimesToggle({}, 0);
    assert Plus({}, {0}) == {0};
    RaiseTwice(GENERATOR, 0, 0);
    assert Plus({}, GENERATOR) == GENERATOR;
  }

  lemma StepBit(c: Register, e: nat)
    ensures e in Raise(RegisterPoly(c), 1) <==>
      if c[0] then (e in GENERATOR) != (e in RegisterPoly(BitStep(c))) else e in RegisterPoly(BitStep(c))
  {
    RaiseAt(RegisterPoly(c), 1, e);
    if e < 32 {
      PolynomialIsGenerator(e);
      assert e > 0 ==> Shift(c, 1)[31 - e] == c[32 - e];
      assert !Shift(c, 1)[31];
    }
  }

  lemma {:induction false} StepsMultiply(c: Register, n: nat)
    ensures Congruent(Raise(RegisterPoly(c), n), RegisterPoly(BitSteps(c, n)))
    decreases n
  {
    hide BitStep, Raise, RegisterPoly, Congruent;
    if n == 0 {
      RaiseTwice(RegisterPoly(c), 0, 0);
      CongruentSelf(RegisterPoly(c));
    } else {
      StepMultiplies(c);
      CongruentRaise(Raise(RegisterPoly(c), 1), RegisterPoly(BitStep(c)), n - 1);
      RaiseTwice(RegisterPoly(c), 1, n - 1);
      StepsMultiply(BitStep(c), n - 1);
      CongruentTransitive(Raise(RegisterPoly(c), n), Raise(RegisterPoly(BitStep(c)), n - 1),
                          RegisterPoly(BitSteps(c, n)));
    }
  }

  // ---------------------------------------------------------------- absorbing the message

  lemma {:induction false} WordAt(v: nat, width: nat, i: nat)
    requires i < width
    ensures WordOf(v, width)[i] == BitSet(v, i)
    decreases i
  {
    if i > 0 {
      WordAt(v / 2, width - 1, i - 1);
      HalfPower(v, i);
    }
  }

  lemma HalfPower(v: nat, i: nat)
    requires i > 0
    ensures v / 2 / PowerOfTwo(i - 1) == v / PowerOfTwo(i)
  {
    var p := PowerOfTwo(i - 1);
    assert PowerOfTwo(i) == 2 * p;
    hide PowerOfTwo;
    HalfThenDivide(v, p);
  }

  lemma HalfThenDivide(v: nat, p: nat)
    requires p > 0
    ensures v / 2 / p == v / (2 * p)
  {
    var half, q := v / 2, v / 2 / p;
    var s := half % p;
    DivisionParts(half, p);
    assert (2 * p) * q == 2 * (p * q);
    DivisionIs(v, 2 * p, q, 2 * s + v % 2);
  }

  lemma DivisionParts(v: nat, d: nat)
    requires d > 0
    ensures v == d * (v / d) + v % d && 0 <= v % d < d
  {
  }

  lemma DivisionIs(v: nat, d: nat, q: int, r: int)
    requires d > 0 && v == d * q + r && 0 <= r < d
    ensures v / d == q
  {
    var p := v / d;
    DivisionParts(v, d);
    assert p > q ==> d * p >= d * (q + 1);
    assert p < q ==> d * q >= d * (p + 1);
  }

  predicate ByteBit(b: byte, e: nat) {
    e < 8 && BitSet(b, 7 - e)
  }

  function BytePoly(b: byte): Poly {
    set e: nat | e < 8 && ByteBit(b, e)
  }

  lemma ByteRegister(b: byte)
    ensures RegisterPoly(WordOf(b, 32)) == Raise(BytePoly(b), 24)
  {
    forall e: nat ensures e in RegisterPoly(WordOf(b, 32)) <==> e in Raise(BytePoly(b), 24) {
      RaiseAt(BytePoly(b), 24, e);
      if e < 32 {
        ByteWord(b);
        if e >= 24 { WordAt(b, 32, 31 - e); }
      }
    }
  }

  /** A byte is the next eight places of the message. */
  lemma ByteMultiplies(c: Register, b: byte)
    ensures Congruent(Plus(Raise(RegisterPoly(c), 8), Raise(BytePoly(b), 32)), RegisterPoly(AbsorbByte(c, b)))
  {
    hide Raise, RegisterPoly, BytePoly, Congruent, BitSteps, WordOf;
    var x := Xor(c, WordOf(b, 32));
    StepsMultiply(x, 8);
    RegisterXor(c, WordOf(b, 32));
    ByteRegister(b);
    RaisePlus(RegisterPoly(c), Raise(BytePoly(b), 24), 8);
    RaiseTwice(BytePoly(b), 24, 8);
  }

  lemma MessageFirst(data: Bytes)
    requires data != []
    ensures MessagePoly(data) == Plus(Raise(BytePoly(data[0]), 8 * (|data| - 1)), MessagePoly(data[1..]))
  {
    var n, t := |data| - 1, data[1..];
    forall e: nat ensures e in MessagePoly(data) <==> e in Plus(Raise(BytePoly(data[0]), 8 * n), MessagePoly(t)) {
      RaiseAt(BytePoly(data[0]), 8 * n, e);
      if e < 8 * n {
        assert e / 8 < n && t[n - 1 - e / 8] == data[n - e / 8];
      } else if e < 8 * n + 8 {
        assert e / 8 == n && e % 8 == e - 8 * n;
      }
    }
  }

  lemma {:induction false} AbsorbDivides(c: Register, data: Bytes)
    ensures Congruent(Plus(Raise(RegisterPoly(c), 8 * |data|), Raise(MessagePoly(data), 32)),
                      RegisterPoly(Absorb(c, data)))
    decreases |data|
  {
    hide Raise, RegisterPoly, BytePoly, Congruent, AbsorbByte, MessagePoly;
    var here := RegisterPoly(c);
    if data == [] {
      NoMessage();
      RaiseTwice(here, 0, 0);
      PlusCancels(here, {});
      CongruentSelf(here);
    } else {
      var b, t, n := data[0], data[1..], 8 * (|data| - 1);
      var next := RegisterPoly(AbsorbByte(c, b));
      ByteMultiplies(c, b);
      CongruentRaise(Plus(Raise(here, 8), Raise(BytePoly(b), 32)), next, n);
      RaisePlus(Raise(here, 8), Raise(BytePoly(b), 32), n);
      RaiseTwice(here, 8, n);
      RaiseTwice(BytePoly(b), 32, n);
      CongruentPlus(Plus(Raise(here, 8 + n), Raise(BytePoly(b), 32 + n)), Raise(next, n), Raise(MessagePoly(t), 32));
      MessageFirst(data);
      RaisePlus(Raise(BytePoly(b), n), MessagePoly(t), 32);
      RaiseTwice(BytePoly(b), n, 32);
      PlusAssociates(Raise(here, 8 + n), Raise(BytePoly(b), 32 + n), Raise(MessagePoly(t), 32));
      AbsorbDivides(AbsorbByte(c, b), t);
      CongruentTransitive(Plus(Raise(here, 8 * |data|), Raise(MessagePoly(data), 32)),
                          Plus(Raise(next, n), Raise(MessagePoly(t), 32)), RegisterPoly(Absorb(c, data)));
    }
  }

  lemma NoMessage()
    ensures MessagePoly([]) == {} && Raise({}, 32) == {}
  {
  }

  lemma OnesPrefix(n: nat)
    ensures Raise(RegisterPoly(ONES), 8 * n) == PrefixPoly(n)
  {
    forall e: nat ensures e in Raise(RegisterPoly(ONES), 8 * n) <==> e in PrefixPoly(n) {
      RaiseAt(RegisterPoly(ONES), 8 * n, e);
    }
  }

  // ---------------------------------------------------------------- the checksum

  lemma CheckRegister(c: Register)
    ensures CheckPoly(NumberOf(Xor(c, ONES))) == RegisterPoly(c)
  {
    hide NumberOf, WordOf;
    var w := Xor(c, ONES);
    WordRoundTrip(w);
    forall e: nat ensures e in CheckPoly(NumberOf(w)) <==> e in RegisterPoly(c) {
      if e < 32 {
        WordAt(NumberOf(w), 32, 31 - e);
        assert w[31 - e] == (c[31 - e] != ONES[31 - e]);
      }
    }
  }

  /** The checksum is the remainder of the message. */
  lemma CrcIsRemainder(data: Bytes)
    ensures IsRemainder(Dividend(data), CheckPoly(Crc(data)))
  {
    var c := Absorb(ONES, data);
    CheckRegister(c);
    OnesPrefix(|data|);
    hide RegisterPoly, MessagePoly, PrefixPoly, Raise, Congruent, CheckPoly, Absorb;
    AbsorbDivides(ONES, data);
    PlusCommutes(Raise(MessagePoly(data), 32), PrefixPoly(|data|));
    CheckBelow(Crc(data));
  }

  lemma CheckBelow(v: nat)
    ensures forall e :: e in CheckPoly(v) ==> e < 32
  {
  }

  /** And nothing else is. */
  lemma CrcExactly(data: Bytes, v: nat)
    requires v < TWO_32
    ensures v == Crc(data) <==> IsRemainder(Dividend(data), CheckPoly(v))
  {
    hide IsRemainder, Dividend, Crc, CheckPoly;
    CrcIsRemainder(data);
    if IsRemainder(Dividend(data), CheckPoly(v)) {
      RemainderUnique(Dividend(data), CheckPoly(v), CheckPoly(Crc(data)));
      CheckInjective(v, Crc(data));
    }
  }

  lemma CheckInjective(u: nat, v: nat)
    requires u < TWO_32 && v < TWO_32 && CheckPoly(u) == CheckPoly(v)
    ensures u == v
  {
    hide WordOf, BitSet;
    Power32();
    forall i | 0 <= i < 32 ensures WordOf(u, 32)[i] == WordOf(v, 32)[i] {
      WordAt(u, 32, i);
      WordAt(v, 32, i);
      assert (31 - i) in CheckPoly(u) <==> (31 - i) in CheckPoly(v);
    }
    assert WordOf(u, 32) == WordOf(v, 32);
    NumberRoundTrip(u, 32);
    NumberRoundTrip(v, 32);
  }
}
