/** Decimal numbers as the bytes a client sends and the server stores. */
module DecimalBytes {
  import opened ByteStrings
  import opened Decimal

  const MINUS: byte := 45
  const ZERO: byte := 48

  predicate IsDigit(b: byte) {
    48 <= b <= 57
  }

  function DigitByte(d: digit): (b: byte)
    ensures IsDigit(b)
  {
    d + 48
  }

  function ByteDigit(b: byte): (d: digit)
    requires IsDigit(b)
  {
    b - 48
  }

  predicate AllDigits(s: Bytes) {
    forall i :: 0 <= i < |s| ==> IsDigit(s[i])
  }

  function ToDigits(s: Bytes): (ds: seq<digit>)
    requires AllDigits(s)
    ensures |ds| == |s| && forall i :: 0 <= i < |s| ==> ds[i] == ByteDigit(s[i])
  {
    seq(|s|, i requires 0 <= i < |s| => ByteDigit(s[i]))
  }

  function FromDigits(ds: seq<digit>): (s: Bytes)
    ensures |s| == |ds| && forall i :: 0 <= i < |ds| ==> s[i] == DigitByte(ds[i])
    ensures AllDigits(s) && ToDigits(s) == ds
  {
    seq(|ds|, i requires 0 <= i < |ds| => DigitByte(ds[i]))
  }

  /** `to_chars` and `to_string`: the one canonical spelling of a number. */
  function Spelled(n: int): (s: Bytes)
    ensures s != []
  {
    if n < 0 then [MINUS] + FromDigits(DigitsOf(-n)) else FromDigits(DigitsOf(n))
  }

  /** The number a text denotes, if it is an optional minus and at least one digit. */
  function Denotes(s: Bytes): (n: Option<int>) {
    if s == [] then None
    else
      var digits := if s[0] == MINUS then s[1..] else s;
      if digits == [] || !AllDigits(digits) then None
      else Some(if s[0] == MINUS then -(ValueOf(ToDigits(digits)) as int) else ValueOf(ToDigits(digits)))
  }

  lemma DenotesSpelled(n: int)
    ensures Denotes(Spelled(n)) == Some(n)
  {
    hide DigitsOf, ValueOf;
    if n < 0 {
      ValueOfDigits(-n);
      assert Spelled(n)[1..] == FromDigits(DigitsOf(-n));
    } else {
      ValueOfDigits(n);
      assert IsDigit(Spelled(n)[0]);
    }
  }
}
