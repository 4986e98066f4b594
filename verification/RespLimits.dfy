/** How long an argument can be: the parser hands out none that the store could not keep. */
module RespLimits {
  import opened ByteStrings
  import opened Resp

  predicate AllShort(c: Command) {
    forall i :: 0 <= i < |c| ==> Short(c[i])
  }

  /** No argument, received or still coming in, is longer than a bulk string may be. */
  ghost predicate Bounded(p: Parser) {
    && (forall i :: 0 <= i < |p.pending| ==> |p.pending[i]| <= MAX_BULK)
    && (p.phase.ReadingBulkBody? && p.pending != [] ==> |p.pending[|p.pending| - 1]| + p.bulk <= MAX_BULK)
  }

  lemma {:induction false} WordsShort(line: Bytes, word: Bytes)
    requires |line| + |word| < TWO_32
    ensures AllShort(Words(line, word))
    decreases |line|
  {
    if line != [] {
      if IsSpace(line[0]) {
        WordsShort(line[1..], []);
      } else {
        WordsShort(line[1..], word + [line[0]]);
      }
    }
  }

  lemma BodyBounded(p: Parser, s: Bytes)
    requires Sound(p) && Bounded(p) && p.phase.ReadingBulkBody?
    ensures Bounded(Step(p, s).next)
  {
    hide FindCrlf, FindNewline, ParseI64, Words;
  }

  lemma StepBounded(p: Parser, s: Bytes)
    requires Sound(p) && Bounded(p) && |s| < TWO_32
    ensures Bounded(Step(p, s).next) && (Step(p, s).Complete? ==> AllShort(Step(p, s).command))
  {
    if p.phase.ReadingBulkBody? {
      BodyBounded(p, s);
    } else if p.phase.ReadingInline? {
      var nl := FindNewline(s, 0);
      hide FindCrlf, FindNewline, ParseI64;
      if nl.Some? {
        var end := if nl.value > 0 && s[nl.value - 1] == CR then nl.value - 1 else nl.value;
        WordsShort(s[..end], []);
        hide Words;
      }
    } else {
      hide FindCrlf, FindNewline, ParseI64, Words;
    }
  }

  /** So every command of a buffer has short arguments. */
  lemma {:induction false} DrainBounded(p: Parser, s: Bytes)
    requires Sound(p) && Bounded(p) && |s| < TWO_32
    ensures Bounded(Drain(p, s).parser)
    ensures forall i :: 0 <= i < |Drain(p, s).commands| ==> AllShort(Drain(p, s).commands[i])
    decreases |s|, Rank(p)
  {
    StepProgress(p, s);
    StepBounded(p, s);
    hide Step, Bounded, AllShort;
    var t := Step(p, s);
    if t.GoOn? || t.Complete? { DrainBounded(t.next, s[t.used..]); }
  }
}
