/** The integers commands take as arguments and counters keep as values. */
module Int64Text {
  import opened ByteStrings
  import opened Decimal
  import opened DecimalBytes

  const MAX_INT64: int := TWO_63 - 1
  const MAX_TEXT: nat := 20

  /** The number whose one canonical spelling this text is. The smallest 64-bit number
      is not among them. */
  function Canonical64(text: Bytes): (n: Option<int>)
    ensures n.Some? ==> -MAX_INT64 <= n.value <= MAX_INT64
  {
    var n := Denotes(text);
    if n.Some? && -MAX_INT64 <= n.value <= MAX_INT64 && Spelled(n.value) == text then n else None
  }

  /** Both ways: a text is read as a number exactly when it is what that number is
      written as. */
  lemma CanonicalExact(text: Bytes, n: int)
    ensures Canonical64(text) == Some(n) <==> -MAX_INT64 <= n <= MAX_INT64 && text == Spelled(n)
  {
    hide Denotes, Spelled;
    DenotesSpelled(n);
  }

  /** The digits that follow the sign. */
  function Start(text: Bytes): nat {
    if text != [] && text[0] == MINUS then 1 else 0
  }

  function Power10(k: nat): (p: nat)
    ensures p > 0
  {
    if k == 0 then 1 else 10 * Power10(k - 1)
  }

  lemma {:induction false} FewDigits(n: nat, k: nat)
    requires k > 0 && n < Power10(k)
    ensures |DigitsOf(n)| <= k
    decreases k
  {
    if n >= 10 {
      assert Power10(1) == 10;
      assert n / 10 < Power10(k - 1);
      FewDigits(n / 10, k - 1);
    }
  }

  lemma Power19()
    ensures Power10(19) == 10000000000000000000
  {
    assert Power10(5) == 100000;
    assert Power10(10) == 10000000000;
    assert Power10(15) == 1000000000000000;
  }

  lemma SpelledShape(n: int)
    ensures var s := Spelled(n);
      && Start(s) < |s| && (Start(s) == 1 <==> n < 0)
      && (s[Start(s)] == ZERO ==> s == [ZERO])
      && (-MAX_INT64 <= n <= MAX_INT64 ==> |s| <= MAX_TEXT)
  {
    var m := if n < 0 then -n else n;
    var ds := DigitsOf(m);
    Power19();
    if m <= MAX_INT64 { FewDigits(m, 19); }
    hide DigitsOf, Power10;
    assert Spelled(n)[if n < 0 then 1 else 0] == DigitByte(ds[0]);
    assert ds == [0] ==> FromDigits(ds) == [ZERO];
  }

  /** A text longer than any number is no number, and neither is one with a zero in
      front, or a minus in front of a zero. */
  lemma LooksWrongIsNone(text: Bytes)
    requires || |text| > MAX_TEXT
             || (Start(text) < |text| && text[Start(text)] == ZERO && (|text| > Start(text) + 1 || Start(text) == 1))
    ensures Canonical64(text).None?
  {
    hide Spelled;
    var n := Denotes(text);
    hide Denotes;
    if n.Some? { SpelledShape(n.value); }
  }

  lemma NonDigitIsNone(text: Bytes, i: nat)
    requires Start(text) <= i < |text| && !IsDigit(text[i])
    ensures Canonical64(text).None?
  {
    hide Spelled;
    var digits := text[Start(text)..];
    assert digits[i - Start(text)] == text[i];
    if text[0] != MINUS { assert digits == text; }
    assert !AllDigits(digits);
  }

  lemma {:induction false} DigitsSnoc(s: Bytes, b: byte)
    requires AllDigits(s) && IsDigit(b)
    ensures AllDigits(s + [b]) && ValueOf(ToDigits(s + [b])) == 10 * ValueOf(ToDigits(s)) + ByteDigit(b)
  {
    hide ValueOf;
    var t := s + [b];
    assert forall j :: 0 <= j < |t| ==> t[j] == if j < |s| then s[j] else b;
    assert ToDigits(t) == ToDigits(s) + [ByteDigit(b)];
    ValueSnoc(ToDigits(s), ByteDigit(b));
  }

  lemma ValueSnoc(ds: seq<digit>, d: digit)
    ensures ValueOf(ds + [d]) == 10 * ValueOf(ds) + d
  {
    assert (ds + [d])[..|ds|] == ds;
  }

  /** Once the digits so far exceed the limit, so do all of them. */
  lemma OverflowIsNone(text: Bytes, i: nat)
    requires Start(text) <= i <= |text| && AllDigits(text[Start(text)..i])
    requires ValueOf(ToDigits(text[Start(text)..i])) > MAX_INT64
    ensures Canonical64(text).None?
  {
    hide Spelled, ValueOf;
    var digits := text[Start(text)..];
    if AllDigits(digits) {
      var k := i - Start(text);
      assert digits[..k] == text[Start(text)..i];
      assert ToDigits(digits)[..k] == ToDigits(text[Start(text)..i]);
      ValueGrows(ToDigits(digits), k);
    }
    assert Start(text) == 0 ==> digits == text;
  }

  lemma FromToDigits(s: Bytes)
    requires AllDigits(s)
    ensures FromDigits(ToDigits(s)) == s
  {
  }

  lemma RespellDigits(digits: Bytes)
    requires digits != [] && AllDigits(digits) && (digits[0] == ZERO ==> |digits| == 1)
    ensures var v := ValueOf(ToDigits(digits)); FromDigits(DigitsOf(v)) == digits && (digits[0] != ZERO ==> v > 0)
  {
    var ds := ToDigits(digits);
    DigitsOfValue(ds);
    FromToDigits(digits);
    assert |ds| == 1 ==> ValueOf(ds) == 10 * ValueOf(ds[..0]) + ds[0];
  }

  lemma PositiveIsCanonical(digits: Bytes)
    requires digits != [] && AllDigits(digits) && (digits[0] == ZERO ==> |digits| == 1)
    requires ValueOf(ToDigits(digits)) <= MAX_INT64
    ensures Canonical64(digits) == Some(ValueOf(ToDigits(digits)))
  {
    RespellDigits(digits);
    var v := ValueOf(ToDigits(digits));
    assert Spelled(v) == digits;
    hide Spelled, ValueOf, ToDigits, FromDigits, DigitsOf;
    assert IsDigit(digits[0]);
    hide AllDigits;
    assert Denotes(digits) == Some(v);
  }

  lemma NegativeIsCanonical(digits: Bytes)
    requires digits != [] && AllDigits(digits) && digits[0] != ZERO
    requires ValueOf(ToDigits(digits)) <= MAX_INT64
    ensures Canonical64([MINUS] + digits) == Some(-(ValueOf(ToDigits(digits)) as int))
  {
    RespellDigits(digits);
    var v := ValueOf(ToDigits(digits));
    var text := [MINUS] + digits;
    assert Spelled(-(v as int)) == text;
    hide Spelled, ValueOf, ToDigits, FromDigits, DigitsOf, AllDigits;
    assert text[0] == MINUS && text[1..] == digits;
    assert Denotes(text) == Some(-(v as int));
  }

  /** And a text that passed every check is canonical. */
  lemma CheckedIsCanonical(text: Bytes)
    requires Start(text) < |text| && AllDigits(text[Start(text)..])
    requires text[Start(text)] == ZERO ==> |text| == 1
    requires ValueOf(ToDigits(text[Start(text)..])) <= MAX_INT64
    ensures var v := ValueOf(ToDigits(text[Start(text)..]));
      Canonical64(text) == Some(if Start(text) == 1 then -(v as int) else v)
  {
    hide ValueOf, ToDigits, AllDigits, Canonical64;
    var digits := text[Start(text)..];
    assert digits[0] == text[Start(text)];
    if Start(text) == 1 {
      assert text == [MINUS] + digits;
      NegativeIsCanonical(digits);
    } else {
      assert text == digits;
      PositiveIsCanonical(digits);
    }
  }

  /** `parse_int64`: digit by digit, looking for the overflow before it happens. */
  method ParseInt64(text: Bytes) returns (r: Option<int>)
    ensures r == Canonical64(text)
  {
    hide Canonical64, ValueOf, Spelled, Denotes;
    if text == [] || |text| > MAX_TEXT {
      if text == [] { EmptyIsNone(text); } else { LooksWrongIsNone(text); }
      return None;
    }
    var i, negative := 0, false;
    if text[0] == MINUS {
      negative, i := true, 1;
      if |text| == 1 {
        EmptyIsNone(text);
        return None;
      }
    }
    if text[i] == ZERO && (|text| - i > 1 || negative) {
      LooksWrongIsNone(text);
      return None;
    }
    ghost var start := i;
    assert text[start..i] == [];
    NoDigits();
    var value := 0;
    while i < |text|
      invariant start <= i <= |text| && 0 <= value <= MAX_INT64
      invariant AllDigits(text[start..i]) && value == ValueOf(ToDigits(text[start..i]))
    {
      var c := text[i];
      if !IsDigit(c) {
        NonDigitIsNone(text, i);
        return None;
      }
      var d := ByteDigit(c);
      assert text[start..i + 1] == text[start..i] + [c];
      DigitsSnoc(text[start..i], c);
      if value > (MAX_INT64 - d) / 10 {
        OverflowIsNone(text, i + 1);
        return None;
      }
      value := value * 10 + d;
      i := i + 1;
    }
    assert text[start..|text|] == text[start..];
    CheckedIsCanonical(text);
    return Some(if negative then -value else value);
  }

  lemma EmptyIsNone(text: Bytes)
    requires text == [] || text == [MINUS]
    ensures Canonical64(text).None?
  {
  }

  lemma NoDigits()
    ensures AllDigits([]) && ValueOf(ToDigits([])) == 0
  {
  }
}
