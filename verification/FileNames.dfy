/** File names in the data directory. A name alone says which files are tables and in
    which order they were written. */
module FileNames {
  import opened ByteStrings
  import opened Decimal

  const WAL := "wal.log"
  const FLUSH_TEMP := "flush.tmp"
  const COMPACT_TEMP := "compact.tmp"
  const SUFFIX := ".sst"
  const SEQUENCE_DIGITS: nat := 6

  function DigitChar(d: digit): (c: char)
    ensures '0' <= c <= '9'
  {
    (d + '0' as int) as char
  }

  function CharDigit(c: char): (d: digit)
    requires '0' <= c <= '9'
  {
    c as int - '0' as int
  }

  function Spell(ds: seq<digit>): (s: string)
    ensures |s| == |ds| && forall i :: 0 <= i < |s| ==> s[i] == DigitChar(ds[i])
  {
    seq(|ds|, i requires 0 <= i < |ds| => DigitChar(ds[i]))
  }

  predicate AllDigits(s: string) {
    forall i :: 0 <= i < |s| ==> '0' <= s[i] <= '9'
  }

  function ReadDigits(s: string): (ds: seq<digit>)
    requires AllDigits(s)
    ensures |ds| == |s| && forall i :: 0 <= i < |s| ==> ds[i] == CharDigit(s[i])
  {
    seq(|s|, i requires 0 <= i < |s| => CharDigit(s[i]))
  }

  /** `"%06llu.sst"` */
  function TableName(sequence: nat): (name: string) {
    var ds := DigitsOf(sequence);
    Spell(Repeat<digit>(0, if |ds| < SEQUENCE_DIGITS then SEQUENCE_DIGITS - |ds| else 0) + ds) + SUFFIX
  }

  /** The sequence number a file name carries; None for a file that is not a table.
      `strtoull` stops at the largest 64-bit number. */
  function SequenceOf(name: string): (sequence: Option<nat>) {
    if |name| <= |SUFFIX| then None
    else
      var digits := name[..|name| - |SUFFIX|];
      if name[|name| - |SUFFIX|..] != SUFFIX || !AllDigits(digits) then None
      else
        var v := ValueOf(ReadDigits(digits));
        Some(if v < TWO_64 then v else TWO_64 - 1)
  }

  /** The number comes back from the name it was written into. */
  lemma SequenceOfTableName(sequence: nat)
    requires sequence < TWO_64
    ensures SequenceOf(TableName(sequence)) == Some(sequence)
  {
    hide DigitsOf, ValueOf;
    var ds := DigitsOf(sequence);
    var padded := Repeat<digit>(0, if |ds| < SEQUENCE_DIGITS then SEQUENCE_DIGITS - |ds| else 0) + ds;
    var name := TableName(sequence);
    assert name[..|name| - |SUFFIX|] == Spell(padded);
    assert name[|name| - |SUFFIX|..] == SUFFIX;
    assert ReadDigits(Spell(padded)) == padded;
    LeadingZeros(|padded| - |ds|, ds);
    ValueOfDigits(sequence);
  }

  lemma TableNamesDiffer(a: nat, b: nat)
    requires a < TWO_64 && b < TWO_64
    ensures TableName(a) == TableName(b) ==> a == b
  {
    SequenceOfTableName(a);
    SequenceOfTableName(b);
  }

  /** The log and the two temporary names are not tables. */
  lemma OtherNames()
    ensures SequenceOf(WAL).None? && SequenceOf(FLUSH_TEMP).None? && SequenceOf(COMPACT_TEMP).None?
    ensures WAL != FLUSH_TEMP && WAL != COMPACT_TEMP && FLUSH_TEMP != COMPACT_TEMP
  {
    assert WAL[3..] == ".log" && ".log"[1] != SUFFIX[1];
    assert FLUSH_TEMP[5..] == ".tmp" && ".tmp"[1] != SUFFIX[1];
    assert COMPACT_TEMP[7..] == ".tmp";
    assert |WAL| != |FLUSH_TEMP| && |WAL| != |COMPACT_TEMP|;
  }

  lemma TableNameIsNoOther(sequence: nat)
    requires sequence < TWO_64
    ensures TableName(sequence) !in {WAL, FLUSH_TEMP, COMPACT_TEMP}
  {
    SequenceOfTableName(sequence);
    OtherNames();
  }
}
