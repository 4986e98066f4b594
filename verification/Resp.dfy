/** The request parser as a machine over the unread bytes: one step per turn of its
    switch. */
module Resp {
  import opened ByteStrings
  import opened DecimalBytes

  const STAR: byte := 42
  const DOLLAR: byte := 36
  const CR: byte := 13
  const LF: byte := 10
  const SPACE: byte := 32
  const TAB: byte := 9

  const MAX_MULTIBULK: int := 1024 * 1024
  const MAX_BULK: int := 512 * 1024 * 1024
  const MAX_LINE: nat := 64 * 1024

  type Command = seq<Bytes>

  // ---------------------------------------------------------------- lines and numbers

  /** `std::from_chars` over the whole text: an optional minus, digits, in range. */
  function ParseI64(s: Bytes): (n: Option<int>)
    ensures n.Some? ==> IsInt64(n.value)
  {
    var n := Denotes(s);
    if n.Some? && IsInt64(n.value) then n else None
  }

  /** The first "\r\n" at or after `from`. */
  function FindCrlf(s: Bytes, from: nat): (at: Option<nat>)
    ensures at.Some? ==> from <= at.value && at.value + 2 <= |s| && s[at.value] == CR && s[at.value + 1] == LF
    ensures at.Some? ==> forall i :: from <= i < at.value ==> s[i] != CR || s[i + 1] != LF
    ensures at.None? ==> forall i :: from <= i < |s| - 1 ==> s[i] != CR || s[i + 1] != LF
    decreases |s| - from
  {
    if from + 2 > |s| then None
    else if s[from] == CR && s[from + 1] == LF then Some(from)
    else FindCrlf(s, from + 1)
  }

  function FindNewline(s: Bytes, from: nat): (at: Option<nat>)
    ensures at.Some? ==> from <= at.value < |s| && s[at.value] == LF
    ensures at.Some? ==> forall i :: from <= i < at.value ==> s[i] != LF
    ensures at.None? ==> forall i :: from <= i < |s| ==> s[i] != LF
    decreases |s| - from
  {
    if from >= |s| then None else if s[from] == LF then Some(from) else FindNewline(s, from + 1)
  }

  predicate IsSpace(b: byte) {
    b == SPACE || b == TAB
  }

  /** The whitespace-separated words of an inline line. */
  function Words(line: Bytes, word: Bytes): (ws: Command)
    decreases |line|
  {
    if line == [] then (if word == [] then [] else [word])
    else if IsSpace(line[0]) then (if word == [] then [] else [word]) + Words(line[1..], [])
    else Words(line[1..], word + [line[0]])
  }

  /** Bytes that are not blank are added to the word at hand. */
  lemma {:induction false} WordsTake(w: Bytes, line: Bytes, word: Bytes)
    requires forall i :: 0 <= i < |w| ==> !IsSpace(w[i])
    ensures Words(w + line, word) == Words(line, word + w)
    decreases |w|
  {
    if w == [] {
      assert w + line == line && word + w == word;
    } else {
      assert (w + line)[1..] == w[1..] + line;
      assert (word + [w[0]]) + w[1..] == word + w;
      WordsTake(w[1..], line, word + [w[0]]);
    }
  }

  // ---------------------------------------------------------------- the machine

  datatype Phase =
    | ReadingType
    | ReadingMultibulkLen
    | ReadingBulkLen
    | ReadingBulkBody
    | ReadingBulkCrlf
    | ReadingInline
    | Failed

  datatype Parser = Parser(phase: Phase, pending: Command, multibulk: nat, bulk: nat)

  const FRESH := Parser(ReadingType, [], 0, 0)

  predicate Sound(p: Parser) {
    && (p.phase.ReadingBulkLen? || p.phase.ReadingBulkBody? || p.phase.ReadingBulkCrlf? ==> p.multibulk > 0)
    && (p.phase.ReadingBulkBody? || p.phase.ReadingBulkCrlf? ==> p.pending != [])
  }

  datatype Error =
    | BadMultibulkLen
    | BadBulkLen
    | ExpectedDollar
    | UnterminatedBulk
    | LineTooLong
    | AlreadyFailed

  /** One turn: go on, ask for more, hand out a command, or give up. `used` counts the
      bytes absorbed. */
  datatype Turn =
    | GoOn(next: Parser, used: nat)
    | NeedMore(next: Parser, used: nat)
    | Complete(command: Command, next: Parser, used: nat)
    | Fail(error: Error, next: Parser, used: nat)

  function GiveUp(p: Parser, e: Error): Turn {
    Fail(e, p.(phase := Failed), 0)
  }

  /** The terminator of a protocol line has not arrived. */
  function Unterminated(p: Parser, s: Bytes): Turn {
    if |s| > MAX_LINE then GiveUp(p, LineTooLong) else NeedMore(p, 0)
  }

  function AppendLast(args: Command, s: Bytes): Command
    requires args != []
  {
    args[..|args| - 1] + [args[|args| - 1] + s]
  }

  function MultibulkLine(p: Parser, s: Bytes, crlf: nat): Turn
    requires crlf + 2 <= |s|
  {
    var n := ParseI64(s[..crlf]);
    if n.None? || n.value > MAX_MULTIBULK then GiveUp(p, BadMultibulkLen)
    else if n.value <= 0 then GoOn(FRESH, crlf + 2)
    else GoOn(p.(phase := ReadingBulkLen, multibulk := n.value), crlf + 2)
  }

  function BulkLine(p: Parser, s: Bytes, crlf: nat): Turn
    requires 1 <= crlf && crlf + 2 <= |s|
  {
    var n := ParseI64(s[1..crlf]);
    if n.None? || n.value < 0 || n.value > MAX_BULK then GiveUp(p, BadBulkLen)
    else GoOn(p.(phase := ReadingBulkBody, bulk := n.value, pending := p.pending + [[]]), crlf + 2)
  }

  function BodyBytes(p: Parser, s: Bytes): Turn
    requires p.pending != []
  {
    var take := if |s| < p.bulk then |s| else p.bulk;
    var q := p.(pending := AppendLast(p.pending, s[..take]), bulk := p.bulk - take);
    if q.bulk > 0 then NeedMore(q, take) else GoOn(q.(phase := ReadingBulkCrlf), take)
  }

  function InlineLine(p: Parser, s: Bytes, nl: nat): Turn
    requires nl < |s|
  {
    var end := if nl > 0 && s[nl - 1] == CR then nl - 1 else nl;
    var args := Words(s[..end], []);
    if args == [] then GoOn(FRESH, nl + 1) else Complete(args, FRESH, nl + 1)
  }

  function Step(p: Parser, s: Bytes): (t: Turn)
    requires Sound(p)
    ensures t.used <= |s|
  {
    match p.phase
    case Failed => Fail(AlreadyFailed, p, 0)
    case ReadingType =>
      if s == [] then NeedMore(p, 0)
      else if s[0] == STAR then GoOn(p.(phase := ReadingMultibulkLen), 1)
      else GoOn(p.(phase := ReadingInline), 0)
    case ReadingMultibulkLen =>
      var crlf := FindCrlf(s, 0);
      if crlf.None? then Unterminated(p, s) else MultibulkLine(p, s, crlf.value)
    case ReadingBulkLen =>
      if s == [] then NeedMore(p, 0)
      else if s[0] != DOLLAR then GiveUp(p, ExpectedDollar)
      else
        var crlf := FindCrlf(s, 1);
        if crlf.None? then Unterminated(p, s) else BulkLine(p, s, crlf.value)
    case ReadingBulkBody => BodyBytes(p, s)
    case ReadingBulkCrlf =>
      if |s| < 2 then NeedMore(p, 0)
      else if s[0] != CR || s[1] != LF then GiveUp(p, UnterminatedBulk)
      else if p.multibulk == 1 then Complete(p.pending, FRESH, 2)
      else GoOn(p.(phase := ReadingBulkLen, multibulk := p.multibulk - 1), 2)
    case ReadingInline =>
      var nl := FindNewline(s, 0);
      if nl.None? then Unterminated(p, s) else InlineLine(p, s, nl.value)
  }

  /** The phases a turn can leave without absorbing a byte. */
  function Rank(p: Parser): nat {
    if p.phase.ReadingType? || p.phase.ReadingBulkBody? then 1 else 0
  }

  /** Every turn keeps the machine sound and makes progress, and no command is empty. */
  lemma StepProgress(p: Parser, s: Bytes)
    requires Sound(p)
    ensures var t := Step(p, s);
      && Sound(t.next)
      && (t.GoOn? ==> t.used > 0 || Rank(t.next) < Rank(p))
      && (t.Complete? ==> t.used > 0 && t.command != [])
  {
    hide ParseI64, Words, FindCrlf, FindNewline;
  }

  // ---------------------------------------------------------------- one call, and all of a buffer

  /** `parse`: turns until something is to be reported. */
  function Parse(p: Parser, s: Bytes): (t: Turn)
    requires Sound(p)
    ensures t.used <= |s| && Sound(t.next) && !t.GoOn?
    ensures t.Complete? ==> t.used > 0 && t.command != []
    decreases |s|, Rank(p)
  {
    StepProgress(p, s);
    var t := Step(p, s);
    if t.GoOn? then
      var u := Parse(t.next, s[t.used..]);
      u.(used := t.used + u.used)
    else t
  }

  /** What a buffer amounts to: the commands in it, the error that ended it if any, the
      parser's state and how many bytes were absorbed. */
  datatype Outcome = Outcome(commands: seq<Command>, error: Option<Error>, parser: Parser, used: nat)

  function Later(o: Outcome, commands: seq<Command>, used: nat): Outcome {
    o.(commands := commands + o.commands, used := used + o.used)
  }

  function Drain(p: Parser, s: Bytes): (o: Outcome)
    requires Sound(p)
    ensures o.used <= |s| && Sound(o.parser)
    decreases |s|, Rank(p)
  {
    StepProgress(p, s);
    match Step(p, s)
    case GoOn(next, used) => Later(Drain(next, s[used..]), [], used)
    case Complete(command, next, used) => Later(Drain(next, s[used..]), [command], used)
    case NeedMore(next, used) => Outcome([], None, next, used)
    case Fail(error, next, used) => Outcome([], Some(error), next, used)
  }

  /** Draining is calling `parse` until it has no further command. */
  lemma {:induction false} DrainByParse(p: Parser, s: Bytes)
    requires Sound(p)
    ensures var t := Parse(p, s);
      Drain(p, s) ==
        match t
        case Complete(command, next, used) => Later(Drain(next, s[used..]), [command], used)
        case NeedMore(next, used) => Outcome([], None, next, used)
        case Fail(error, next, used) => Outcome([], Some(error), next, used)
    decreases |s|, Rank(p)
  {
    hide Step;
    StepProgress(p, s);
    var t := Step(p, s);
    if t.GoOn? {
      DrainByParse(t.next, s[t.used..]);
      var u := Parse(t.next, s[t.used..]);
      if u.Complete? {
        assert s[t.used..][u.used..] == s[t.used + u.used..];
        var o := Drain(u.next, s[t.used + u.used..]);
        assert Later(Later(o, [u.command], u.used), [], t.used) == Later(o, [u.command], t.used + u.used);
      }
    } else if t.Complete? {
      assert Later(Drain(t.next, s[t.used..]), [t.command], t.used) == Drain(p, s);
    }
  }
}
