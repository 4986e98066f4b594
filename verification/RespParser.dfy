/** The parser as the object it is: fields updated turn by turn. */
module RespParser {
  import opened ByteStrings
  import opened Resp

  /** Words between runs of blanks. */
  lemma {:induction false} WordsSkip(line: Bytes, i: nat, k: nat)
    requires i <= k <= |line| && forall j :: i <= j < k ==> IsSpace(line[j])
    ensures Words(line[i..], []) == Words(line[k..], [])
    decreases k - i
  {
    if i < k {
      assert line[i..][1..] == line[i + 1..];
      WordsSkip(line, i + 1, k);
    }
  }

  /** A word ends at a blank or at the end of the line. */
  lemma WordsEnd(line: Bytes, start: nat, k: nat)
    requires start < k <= |line| && forall j :: start <= j < k ==> !IsSpace(line[j])
    requires k == |line| || IsSpace(line[k])
    ensures Words(line[start..], []) == [line[start..k]] + Words(line[k..], [])
  {
    var w := line[start..k];
    assert line[start..] == w + line[k..] && [] + w == w;
    WordsTake(w, line[k..], []);
    if k < |line| {
      assert line[k..][0] == line[k];
      assert Words(line[k..], []) == [] + Words(line[k..][1..], []);
    }
  }

  method SplitInline(line: Bytes) returns (args: Command)
    ensures args == Words(line, [])
  {
    args := [];
    var i := 0;
    assert line[0..] == line;
    while i < |line|
      invariant i <= |line|
      invariant args + Words(line[i..], []) == Words(line, [])
      invariant i == |line| ==> args == Words(line, [])
    {
      var from := i;
      while i < |line| && IsSpace(line[i])
        invariant from <= i <= |line| && forall j :: from <= j < i ==> IsSpace(line[j])
      {
        i := i + 1;
      }
      WordsSkip(line, from, i);
      if i == |line| { break; }
      var start := i;
      while i < |line| && !IsSpace(line[i])
        invariant start <= i <= |line| && forall j :: start <= j < i ==> !IsSpace(line[j])
      {
        i := i + 1;
      }
      WordsEnd(line, start, i);
      args := args + [line[start..i]];
    }
  }

  class RespParser {
    var phase: Phase
    var pending: Command
    var multibulk: nat
    var bulk: nat

    constructor ()
      ensures State() == FRESH
    {
      phase, pending, multibulk, bulk := ReadingType, [], 0, 0;
    }

    ghost function State(): Parser
      reads this
    {
      Parser(phase, pending, multibulk, bulk)
    }

    method Reset()
      modifies this
      ensures State() == if old(phase.Failed?) then old(State()) else FRESH
    {
      if phase == Failed { return; }
      phase, pending, multibulk, bulk := ReadingType, [], 0, 0;
    }

    method LostFraming(e: Error) returns (t: Turn)
      modifies this`phase
      ensures t == GiveUp(old(State()), e) && State() == t.next
    {
      phase := Failed;
      t := Fail(e, Parser(phase, pending, multibulk, bulk), 0);
    }

    method NoTerminator(length: nat) returns (t: Turn)
      modifies this`phase
      ensures t == if length > MAX_LINE then GiveUp(old(State()), LineTooLong) else NeedMore(old(State()), 0)
      ensures State() == t.next
    {
      if length > MAX_LINE {
        t := LostFraming(LineTooLong);
      } else {
        t := NeedMore(Parser(phase, pending, multibulk, bulk), 0);
      }
    }

    method MultibulkLen(s: Bytes) returns (t: Turn)
      requires phase.ReadingMultibulkLen?
      modifies this
      ensures t == Step(old(State()), s) && State() == t.next
    {
      hide Words, FindNewline;
      var crlf := FindCrlf(s, 0);
      if crlf.None? {
        t := NoTerminator(|s|);
        return;
      }
      var n := ParseI64(s[..crlf.value]);
      if n.None? || n.value > MAX_MULTIBULK {
        t := LostFraming(BadMultibulkLen);
        return;
      }
      if n.value <= 0 {
        Reset();
      } else {
        multibulk := n.value;
        phase := ReadingBulkLen;
      }
      t := GoOn(Parser(phase, pending, multibulk, bulk), crlf.value + 2);
    }

    method BulkLen(s: Bytes) returns (t: Turn)
      requires phase.ReadingBulkLen? && Sound(State())
      modifies this
      ensures t == Step(old(State()), s) && State() == t.next
    {
      hide Words, FindNewline;
      if s == [] {
        t := NeedMore(Parser(phase, pending, multibulk, bulk), 0);
        return;
      }
      if s[0] != DOLLAR {
        t := LostFraming(ExpectedDollar);
        return;
      }
      var crlf := FindCrlf(s, 1);
      if crlf.None? {
        t := NoTerminator(|s|);
        return;
      }
      var n := ParseI64(s[1..crlf.value]);
      if n.None? || n.value < 0 || n.value > MAX_BULK {
        t := LostFraming(BadBulkLen);
        return;
      }
      bulk := n.value;
      pending := pending + [[]];
      phase := ReadingBulkBody;
      t := GoOn(Parser(phase, pending, multibulk, bulk), crlf.value + 2);
    }

    method BulkBody(s: Bytes) returns (t: Turn)
      requires phase.ReadingBulkBody? && Sound(State())
      modifies this
      ensures t == Step(old(State()), s) && State() == t.next
    {
      var take := if |s| < bulk then |s| else bulk;
      var last := |pending| - 1;
      pending := pending[..last] + [pending[last] + s[..take]];
      bulk := bulk - take;
      if bulk > 0 {
        t := NeedMore(Parser(phase, pending, multibulk, bulk), take);
      } else {
        phase := ReadingBulkCrlf;
        t := GoOn(Parser(phase, pending, multibulk, bulk), take);
      }
    }

    method BulkCrlf(s: Bytes) returns (t: Turn)
      requires phase.ReadingBulkCrlf? && Sound(State())
      modifies this
      ensures t == Step(old(State()), s) && State() == t.next
    {
      if |s| < 2 {
        t := NeedMore(Parser(phase, pending, multibulk, bulk), 0);
        return;
      }
      if s[0] != CR || s[1] != LF {
        t := LostFraming(UnterminatedBulk);
        return;
      }
      multibulk := multibulk - 1;
      if multibulk == 0 {
        var out := pending;
        Reset();
        t := Complete(out, Parser(phase, pending, multibulk, bulk), 2);
        return;
      }
      phase := ReadingBulkLen;
      t := GoOn(Parser(phase, pending, multibulk, bulk), 2);
    }

    method Inline(s: Bytes) returns (t: Turn)
      requires phase.ReadingInline?
      modifies this
      ensures t == Step(old(State()), s) && State() == t.next
    {
      hide Words, ParseI64, FindCrlf;
      var nl := FindNewline(s, 0);
      if nl.None? {
        t := NoTerminator(|s|);
        return;
      }
      var end := nl.value;
      if end > 0 && s[end - 1] == CR { end := end - 1; }
      pending := SplitInline(s[..end]);
      if pending == [] {
        Reset();
        t := GoOn(Parser(phase, pending, multibulk, bulk), nl.value + 1);
        return;
      }
      var out := pending;
      Reset();
      t := Complete(out, Parser(phase, pending, multibulk, bulk), nl.value + 1);
    }

    /** One turn of the switch. */
    method TakeTurn(s: Bytes) returns (t: Turn)
      requires Sound(State())
      modifies this
      ensures t == Step(old(State()), s) && State() == t.next
    {
      match phase
      case Failed => t := Fail(AlreadyFailed, Parser(phase, pending, multibulk, bulk), 0);
      case ReadingType =>
        if s == [] {
          t := NeedMore(Parser(phase, pending, multibulk, bulk), 0);
        } else if s[0] == STAR {
          phase := ReadingMultibulkLen;
          t := GoOn(Parser(phase, pending, multibulk, bulk), 1);
        } else {
          phase := ReadingInline;
          t := GoOn(Parser(phase, pending, multibulk, bulk), 0);
        }
      case ReadingMultibulkLen => t := MultibulkLen(s);
      case ReadingBulkLen => t := BulkLen(s);
      case ReadingBulkBody => t := BulkBody(s);
      case ReadingBulkCrlf => t := BulkCrlf(s);
      case ReadingInline => t := Inline(s);
    }

    /** At most one command from the front of `input`. A turn that completes nothing and
        loses nothing is followed by another; every turn but the last absorbs a byte or
        moves to a phase that will. */
    method Parse(input: Bytes) returns (t: Turn)
      requires Sound(State())
      modifies this
      ensures t == Resp.Parse(old(State()), input) && State() == t.next
    {
      hide Step;
      var pos := 0;
      assert input[0..] == input;
      while true
        invariant pos <= |input| && Sound(State())
        invariant var u := Resp.Parse(State(), input[pos..]);
          Resp.Parse(old(State()), input) == u.(used := pos + u.used)
        decreases |input| - pos, Rank(State())
      {
        StepProgress(State(), input[pos..]);
        t := TakeTurn(input[pos..]);
        if !t.GoOn? {
          return t.(used := pos + t.used);
        }
        assert input[pos..][t.used..] == input[pos + t.used..];
        pos := pos + t.used;
      }
    }
  }
}
