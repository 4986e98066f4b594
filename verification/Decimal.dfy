/** Decimal spellings: what `snprintf`, `to_chars` and the two integer parsers agree on. */
module Decimal {
  import opened ByteStrings

  type digit = d: int | 0 <= d < 10

  /** The canonical spelling: no leading zero, except for zero itself. */
  function DigitsOf(n: nat): (ds: seq<digit>)
    ensures ds != []
    ensures ds[0] == 0 ==> n == 0 && ds == [0]
  {
    if n < 10 then [n] else DigitsOf(n / 10) + [n % 10]
  }

  function ValueOf(ds: seq<digit>): (n: nat) {
    if ds == [] then 0 else 10 * ValueOf(ds[..|ds| - 1]) + ds[|ds| - 1]
  }

  lemma {:induction false} ValueOfDigits(n: nat)
    ensures ValueOf(DigitsOf(n)) == n
  {
    if n < 10 {
      assert ValueOf([n]) == 10 * ValueOf([]) + n;
    } else {
      var ds := DigitsOf(n / 10);
      assert DigitsOf(n)[..|ds|] == ds;
      ValueOfDigits(n / 10);
    }
  }

  predicate Canonical(ds: seq<digit>) {
    ds != [] && (ds[0] == 0 ==> |ds| == 1)
  }

  lemma OneMoreDigit(n: nat, d: digit)
    requires n > 0
    ensures DigitsOf(10 * n + d) == DigitsOf(n) + [d]
  {
    assert (10 * n + d) / 10 == n && (10 * n + d) % 10 == d;
  }

  /** A canonical spelling is the spelling of its value, and of nothing else. */
  lemma {:induction false} DigitsOfValue(ds: seq<digit>)
    requires Canonical(ds)
    ensures DigitsOf(ValueOf(ds)) == ds
    ensures ds[0] != 0 ==> ValueOf(ds) > 0
    ensures |ds| > 1 ==> ValueOf(ds) >= 10
  {
    var init, last := ds[..|ds| - 1], ds[|ds| - 1];
    var n := ValueOf(init);
    assert ds == init + [last] && ValueOf(ds) == 10 * n + last;
    if init == [] {
      assert n == 0;
    } else {
      DigitsOfValue(init);
      hide ValueOf, DigitsOf;
      OneMoreDigit(n, last);
    }
  }

  lemma {:induction false} LeadingZeros(k: nat, ds: seq<digit>)
    ensures ValueOf(Repeat<digit>(0, k) + ds) == ValueOf(ds)
  {
    var all := Repeat<digit>(0, k) + ds;
    if all != [] {
      if ds == [] {
        assert all[..k - 1] == Repeat<digit>(0, k - 1) + [];
        LeadingZeros(k - 1, []);
      } else {
        assert all[..|all| - 1] == Repeat<digit>(0, k) + ds[..|ds| - 1];
        LeadingZeros(k, ds[..|ds| - 1]);
      }
    }
  }

  lemma {:induction false} ValueGrows(ds: seq<digit>, n: nat)
    requires n <= |ds|
    ensures ValueOf(ds[..n]) <= ValueOf(ds)
  {
    if n < |ds| {
      ValueGrows(ds[..|ds| - 1], n);
      assert ds[..|ds| - 1][..n] == ds[..n];
    } else {
      assert ds[..n] == ds;
    }
  }
}
