/** Does it matter how a stream is cut into reads? Exactly when a line is too long. */
module RespChunking {
  import opened ByteStrings
  import opened Resp

  /** The buffer in front of the parser, fed read by read: what one read leaves over
      stands in front of the next, and an error ends it. */
  function Fed(p: Parser, held: Bytes, chunks: seq<Bytes>): (o: Outcome)
    requires Sound(p)
    decreases |chunks|
  {
    if chunks == [] then Outcome([], None, p, 0)
    else
      var s := held + chunks[0];
      var d := Drain(p, s);
      if d.error.Some? then d
      else Later(Fed(d.parser, s[d.used..], chunks[1..]), d.commands, d.used)
  }

  /** One byte at a time. */
  function Singles(s: Bytes): (chunks: seq<Bytes>)
    ensures |chunks| == |s| && forall i :: 0 <= i < |s| ==> chunks[i] == [s[i]]
  {
    seq(|s|, i requires 0 <= i < |s| => [s[i]])
  }

  lemma {:induction false} JoinedSingles(s: Bytes)
    ensures Joined(Singles(s)) == s
  {
    if s != [] {
      JoinedSingles(s[1..]);
      assert Singles(s)[1..] == Singles(s[1..]);
      assert [s[0]] + s[1..] == s;
    }
  }

  lemma SinglesConcat(a: Bytes, b: Bytes)
    ensures Singles(a + b) == Singles(a) + Singles(b)
  {
    var both := Singles(a) + Singles(b);
    forall i | 0 <= i < |both| ensures both[i] == [(a + b)[i]] {
    }
  }

  // ---------------------------------------------------------------- the condition

  /** The terminator of the line in front comes before the line has grown past the
      limit: however few bytes arrive at a time, it is never refused for want of one. */
  predicate LineFits(p: Parser, s: Bytes) {
    match p.phase
    case ReadingMultibulkLen => FindCrlf(s, 0).Some? ==> FindCrlf(s, 0).value + 1 <= MAX_LINE
    case ReadingBulkLen =>
      s != [] && s[0] == DOLLAR && FindCrlf(s, 1).Some? ==> FindCrlf(s, 1).value + 1 <= MAX_LINE
    case ReadingInline => FindNewline(s, 0).Some? ==> FindNewline(s, 0).value <= MAX_LINE
    case _ => true
  }

  /** Every terminated line of the stream fits. */
  predicate NoLongLine(p: Parser, s: Bytes)
    requires Sound(p)
    decreases |s|, Rank(p)
  {
    StepProgress(p, s);
    var t := Step(p, s);
    && LineFits(p, s)
    && (t.GoOn? || t.Complete? ==> NoLongLine(t.next, s[t.used..]))
  }

  // ---------------------------------------------------------------- one turn, more bytes

  lemma CrlfMore(a: Bytes, b: Bytes, from: nat)
    ensures FindCrlf(a, from).Some? ==> FindCrlf(a + b, from) == FindCrlf(a, from)
    ensures FindCrlf(a, from).None? && FindCrlf(a + b, from).Some? ==> FindCrlf(a + b, from).value + 1 >= |a|
  {
    var whole, part := FindCrlf(a + b, from), FindCrlf(a, from);
    if part.Some? {
      var v := part.value;
      assert (a + b)[v] == CR && (a + b)[v + 1] == LF;
      assert forall i :: from <= i <= v ==> (a + b)[i] == a[i];
    }
  }

  lemma NewlineMore(a: Bytes, b: Bytes)
    ensures FindNewline(a, 0).Some? ==> FindNewline(a + b, 0) == FindNewline(a, 0)
    ensures FindNewline(a, 0).None? && FindNewline(a + b, 0).Some? ==> FindNewline(a + b, 0).value >= |a|
  {
    var whole, part := FindNewline(a + b, 0), FindNewline(a, 0);
    if part.Some? {
      assert (a + b)[part.value] == LF;
      assert forall i :: 0 <= i < part.value ==> (a + b)[i] == a[i];
    }
  }

  /** More bytes change a turn only if it was waiting for them. */
  lemma StepMore(p: Parser, a: Bytes, b: Bytes)
    requires Sound(p)
    ensures var t := Step(p, a);
      t.GoOn? || t.Complete? || (t.Fail? && !t.error.LineTooLong?) ==> Step(p, a + b) == t
  {
    hide FindCrlf, FindNewline, ParseI64, Words;
    match p.phase
    case ReadingMultibulkLen =>
      CrlfMore(a, b, 0);
      var c := FindCrlf(a, 0);
      if c.Some? { assert (a + b)[..c.value] == a[..c.value]; }
    case ReadingBulkLen =>
      CrlfMore(a, b, 1);
      var c := FindCrlf(a, 1);
      if c.Some? { assert (a + b)[1..c.value] == a[1..c.value]; }
    case ReadingInline =>
      NewlineMore(a, b);
      var c := FindNewline(a, 0);
      if c.Some? {
        assert (a + b)[..c.value] == a[..c.value];
        assert c.value > 0 ==> (a + b)[..c.value - 1] == a[..c.value - 1];
      }
    case ReadingBulkBody =>
      if p.bulk <= |a| { assert (a + b)[..p.bulk] == a[..p.bulk]; }
    case _ =>
  }

  lemma LessCount(p: Parser, a: Bytes, b: Bytes)
    requires p.phase.ReadingMultibulkLen? && Step(p, a + b).GoOn? && Step(p, a + b).used <= |a|
    ensures Step(p, a) == Step(p, a + b)
  {
    hide FindCrlf, ParseI64;
    CrlfMore(a, b, 0);
    var c := FindCrlf(a + b, 0);
    assert (a + b)[..c.value] == a[..c.value];
  }

  lemma LessLength(p: Parser, a: Bytes, b: Bytes)
    requires Sound(p) && p.phase.ReadingBulkLen? && Step(p, a + b).GoOn? && Step(p, a + b).used <= |a|
    ensures Step(p, a) == Step(p, a + b)
  {
    hide FindCrlf, ParseI64;
    CrlfMore(a, b, 1);
    var c := FindCrlf(a + b, 1);
    assert (a + b)[1..c.value] == a[1..c.value];
  }

  lemma LessInline(p: Parser, a: Bytes, b: Bytes)
    requires p.phase.ReadingInline? && Step(p, a + b).used <= |a|
    requires Step(p, a + b).GoOn? || Step(p, a + b).Complete?
    ensures Step(p, a) == Step(p, a + b)
  {
    hide FindNewline, Words;
    NewlineMore(a, b);
    var c := FindNewline(a + b, 0);
    assert (a + b)[..c.value] == a[..c.value];
    assert c.value > 0 ==> (a + b)[..c.value - 1] == a[..c.value - 1];
  }

  /** And fewer bytes do not change it as long as it has all those it used. */
  lemma StepLess(p: Parser, a: Bytes, b: Bytes)
    requires Sound(p)
    requires var t := Step(p, a + b); (t.GoOn? || t.Complete?) && t.used <= |a|
    requires p.phase.ReadingType? ==> a != []
    ensures Step(p, a) == Step(p, a + b)
  {
    hide FindCrlf, FindNewline, ParseI64, Words;
    match p.phase
    case ReadingMultibulkLen => LessCount(p, a, b);
    case ReadingBulkLen => LessLength(p, a, b);
    case ReadingInline => LessInline(p, a, b);
    case ReadingBulkBody => assert (a + b)[..p.bulk] == a[..p.bulk];
    case _ =>
  }

  /** A turn refused for length is refused with more bytes too, unless the line was
      about to end. */
  lemma RefusedMore(p: Parser, a: Bytes, b: Bytes)
    requires Sound(p) && LineFits(p, a + b)
    requires var t := Step(p, a); t.Fail? && t.error.LineTooLong?
    ensures Step(p, a + b) == Step(p, a)
  {
    hide FindCrlf, FindNewline, ParseI64, Words;
    CrlfMore(a, b, 0);
    CrlfMore(a, b, 1);
    NewlineMore(a, b);
  }

  // ---------------------------------------------------------------- one cut

  /** The state a buffer leaves the parser in asks for nothing more of what is left. */
  predicate AtRest(p: Parser, held: Bytes)
    requires Sound(p)
  {
    Drain(p, held) == Outcome([], None, p, 0)
  }

  lemma AppendLaws(args: Command, x: Bytes, y: Bytes)
    requires args != []
    ensures AppendLast(args, []) == args
    ensures AppendLast(AppendLast(args, x), y) == AppendLast(args, x + y)
  {
    var n := |args| - 1;
    assert args[n] + [] == args[n] && args[..n] + [args[n]] == args;
    var once := AppendLast(args, x);
    assert |once| == n + 1 && once[..n] == args[..n] && once[n] == args[n] + x;
    assert (args[n] + x) + y == args[n] + (x + y);
  }

  lemma StepRests(p: Parser, s: Bytes)
    requires Sound(p)
    ensures var t := Step(p, s); t.NeedMore? ==> Sound(t.next) && Step(t.next, s[t.used..]) == NeedMore(t.next, 0)
  {
    hide FindCrlf, FindNewline, ParseI64, Words;
    StepProgress(p, s);
    assert s[0..] == s;
    if p.phase.ReadingBulkBody? {
      var t := Step(p, s);
      if t.NeedMore? {
        assert s[t.used..] == [];
        AppendLaws(t.next.pending, [], []);
      }
    }
  }

  lemma {:induction false} DrainRests(p: Parser, s: Bytes)
    requires Sound(p)
    ensures var d := Drain(p, s); d.error.None? ==> AtRest(d.parser, s[d.used..])
    decreases |s|, Rank(p)
  {
    hide Step;
    StepProgress(p, s);
    var t := Step(p, s);
    if t.GoOn? || t.Complete? {
      var rest := s[t.used..];
      DrainRests(t.next, rest);
      assert rest[Drain(t.next, rest).used..] == s[t.used + Drain(t.next, rest).used..];
    } else {
      StepRests(p, s);
    }
  }

  /** A body cut in two is the body. */
  lemma BodyMore(p: Parser, a: Bytes, b: Bytes)
    requires Sound(p) && p.phase.ReadingBulkBody? && Step(p, a).NeedMore?
    ensures var t := Step(p, a);
      && t.used == |a| && Sound(t.next) && LineFits(t.next, b)
      && Step(p, a + b) ==
         (var u := Step(t.next, b); if u.NeedMore? then NeedMore(u.next, |a| + u.used) else GoOn(u.next, |a| + u.used))
      && (Step(t.next, b).NeedMore? || Step(t.next, b).GoOn?)
  {
    hide FindCrlf, FindNewline, ParseI64, Words;
    var q := Step(p, a).next;
    assert |a| < p.bulk && a[..|a|] == a;
    var take := if |b| < q.bulk then |b| else q.bulk;
    assert (a + b)[..|a| + take] == a + b[..take];
    AppendLaws(p.pending, a, b[..take]);
  }

  /** The command a turn hands out, if it does. */
  function First(t: Turn): seq<Command> {
    if t.Complete? then [t.command] else []
  }

  lemma DrainOn(p: Parser, s: Bytes)
    requires Sound(p) && (Step(p, s).GoOn? || Step(p, s).Complete?)
    ensures var t := Step(p, s); var o := Drain(p, s);
      && Sound(t.next)
      && o == Later(Drain(t.next, s[t.used..]), First(t), t.used)
      && o.error == Drain(t.next, s[t.used..]).error
      && o.parser == Drain(t.next, s[t.used..]).parser
      && o.commands == First(t) + Drain(t.next, s[t.used..]).commands
      && o.used == t.used + Drain(t.next, s[t.used..]).used
  {
    hide Step;
    StepProgress(p, s);
  }

  lemma LaterTwice(o: Outcome, commands: seq<Command>, used: nat, before: seq<Command>, more: nat)
    ensures Later(Later(o, commands, used), before, more) == Later(o, before + commands, more + used)
  {
    assert before + (commands + o.commands) == (before + commands) + o.commands;
  }

  /** What a stream amounts to when it is cut after `a`. */
  predicate CutAgrees(p: Parser, a: Bytes, b: Bytes)
    requires Sound(p)
  {
    var d := Drain(p, a);
    if d.error.Some? then Drain(p, a + b) == d
    else
      var rest := a[d.used..] + b;
      Drain(p, a + b) == Later(Drain(d.parser, rest), d.commands, d.used) && NoLongLine(d.parser, rest)
  }

  lemma WaitsInPlace(p: Parser, s: Bytes)
    requires Sound(p) && Step(p, s).NeedMore? && !p.phase.ReadingBulkBody?
    ensures Step(p, s) == NeedMore(p, 0)
  {
    hide FindCrlf, FindNewline, ParseI64, Words;
  }

  lemma CutWaiting(p: Parser, a: Bytes, b: Bytes)
    requires Sound(p) && NoLongLine(p, a + b) && Step(p, a).NeedMore?
    ensures CutAgrees(p, a, b)
  {
    hide Step, NoLongLine, LineFits;
    if p.phase.ReadingBulkBody? {
      CutInBody(p, a, b);
    } else {
      WaitsInPlace(p, a);
      assert a[0..] + b == a + b;
    }
  }

  lemma CutInBody(p: Parser, a: Bytes, b: Bytes)
    requires Sound(p) && NoLongLine(p, a + b) && Step(p, a).NeedMore? && p.phase.ReadingBulkBody?
    ensures CutAgrees(p, a, b)
  {
    hide Step, LineFits, Sound;
    BodyMore(p, a, b);
    var q := Step(p, a).next;
    var u := Step(q, b);
    assert a[|a|..] + b == b;
    if u.GoOn? {
      assert (a + b)[|a| + u.used..] == b[u.used..];
      DrainOn(q, b);
      DrainOn(p, a + b);
    }
  }

  /** Cutting once changes nothing. */
  lemma {:induction false} Cut(p: Parser, a: Bytes, b: Bytes)
    requires Sound(p) && NoLongLine(p, a + b)
    ensures CutAgrees(p, a, b)
    decreases |a|, Rank(p)
  {
    StepProgress(p, a);
    StepMore(p, a, b);
    var t := Step(p, a);
    if t.NeedMore? {
      CutWaiting(p, a, b);
    } else if t.Fail? {
      if t.error.LineTooLong? { RefusedMore(p, a, b); }
    } else {
      CutAhead(p, a, b);
    }
  }

  lemma CutAhead(p: Parser, a: Bytes, b: Bytes)
    requires Sound(p) && NoLongLine(p, a + b)
    requires Step(p, a + b) == Step(p, a) && (Step(p, a).GoOn? || Step(p, a).Complete?)
    ensures CutAgrees(p, a, b)
    decreases |a|, Rank(p), 0
  {
    hide Step, LineFits, Sound, CutAgrees, Later;
    StepProgress(p, a);
    var t := Step(p, a);
    var rest := a[t.used..];
    assert (a + b)[t.used..] == rest + b;
    Cut(t.next, rest, b);
    CutBehind(p, a, b);
  }

  lemma CutBehind(p: Parser, a: Bytes, b: Bytes)
    requires Sound(p) && Step(p, a + b) == Step(p, a) && (Step(p, a).GoOn? || Step(p, a).Complete?)
    requires Sound(Step(p, a).next) && CutAgrees(Step(p, a).next, a[Step(p, a).used..], b)
    ensures CutAgrees(p, a, b)
  {
    hide Step, Sound;
    DrainOn(p, a);
    DrainOn(p, a + b);
    hide Drain, NoLongLine, Later;
    var t := Step(p, a);
    var rest := a[t.used..];
    assert (a + b)[t.used..] == rest + b;
    var d := Drain(t.next, rest);
    if d.error.None? {
      assert rest[d.used..] == a[t.used + d.used..];
      LaterTwice(Drain(d.parser, rest[d.used..] + b), d.commands, d.used, First(t), t.used);
    }
  }

  // ---------------------------------------------------------------- any number of cuts

  lemma {:induction false} FedIsDrained(p: Parser, held: Bytes, chunks: seq<Bytes>)
    requires Sound(p) && AtRest(p, held) && NoLongLine(p, held + Joined(chunks))
    ensures Fed(p, held, chunks) == Drain(p, held + Joined(chunks))
    decreases |chunks|
  {
    hide Drain, NoLongLine;
    if chunks == [] {
      assert held + [] == held;
    } else {
      var s, rest := held + chunks[0], Joined(chunks[1..]);
      assert held + Joined(chunks) == s + rest;
      Cut(p, s, rest);
      DrainRests(p, s);
      var d := Drain(p, s);
      if d.error.None? { FedIsDrained(d.parser, s[d.used..], chunks[1..]); }
    }
  }

  /** Once a read has failed, later reads are not looked at. */
  lemma {:induction false} FedStops(p: Parser, held: Bytes, first: seq<Bytes>, then_: seq<Bytes>)
    requires Sound(p) && Fed(p, held, first).error.Some?
    ensures Fed(p, held, first + then_) == Fed(p, held, first)
    decreases |first|
  {
    hide Drain;
    if first != [] {
      var s := held + first[0];
      var d := Drain(p, s);
      assert (first + then_)[1..] == first[1..] + then_;
      if d.error.None? { FedStops(d.parser, s[d.used..], first[1..], then_); }
    }
  }

  // ---------------------------------------------------------------- a line too long

  /** The turn that meets a line that does not fit, with and without the line's end. */
  lemma LongLineTurns(p: Parser, s: Bytes)
    requires Sound(p) && !LineFits(p, s)
    ensures MAX_LINE + 1 <= |s|
    ensures var head := s[..MAX_LINE + 1]; Step(p, head) == GiveUp(p, LineTooLong) && LineFits(p, head)
    ensures var t := Step(p, s); t.used > 0 || (t.Fail? && !t.error.LineTooLong?)
  {
    hide ParseI64, Words, FindCrlf, FindNewline;
    var head, tail := s[..MAX_LINE + 1], s[MAX_LINE + 1..];
    assert s == head + tail;
    match p.phase
    case ReadingMultibulkLen => CrlfMore(head, tail, 0);
    case ReadingBulkLen => CrlfMore(head, tail, 1);
    case _ => NewlineMore(head, tail);
  }

  /** Cut inside the line that does not fit, the stream is refused there; whole, it is
      read on. */
  lemma LongLineHere(p: Parser, s: Bytes)
    requires Sound(p) && !LineFits(p, s)
    ensures MAX_LINE + 1 <= |s|
    ensures var head := s[..MAX_LINE + 1];
      && Drain(p, head) == Outcome([], Some(LineTooLong), p.(phase := Failed), 0)
      && NoLongLine(p, head)
    ensures Drain(p, s) != Drain(p, s[..MAX_LINE + 1])
  {
    hide Step, LineFits, Sound;
    LongLineTurns(p, s);
    StepProgress(p, s);
    StepProgress(p, s[..MAX_LINE + 1]);
  }

  lemma {:induction false} LongLineShows(p: Parser, s: Bytes) returns (cut: nat)
    requires Sound(p) && !NoLongLine(p, s)
    ensures 0 < cut <= |s| && NoLongLine(p, s[..cut])
    ensures Drain(p, s[..cut]).error == Some(LineTooLong) && Drain(p, s) != Drain(p, s[..cut])
    decreases |s|, Rank(p)
  {
    StepProgress(p, s);
    if !LineFits(p, s) {
      LongLineHere(p, s);
      cut := MAX_LINE + 1;
    } else {
      var t := Step(p, s);
      var rest := s[t.used..];
      var later := LongLineShows(t.next, rest);
      cut := t.used + later;
      LongLineAhead(p, s, later);
    }
  }

  lemma LongLineAhead(p: Parser, s: Bytes, later: nat)
    requires Sound(p) && LineFits(p, s)
    requires var t := Step(p, s); (t.GoOn? || t.Complete?) && Sound(t.next) && 0 < later <= |s| - t.used
    requires var t := Step(p, s); var rest := s[t.used..];
      && NoLongLine(t.next, rest[..later])
      && Drain(t.next, rest[..later]).error == Some(LineTooLong)
      && Drain(t.next, rest) != Drain(t.next, rest[..later])
    ensures var head := s[..Step(p, s).used + later];
      && NoLongLine(p, head)
      && Drain(p, head).error == Some(LineTooLong)
      && Drain(p, s) != Drain(p, head)
  {
    hide Step, LineFits, Sound;
    var t := Step(p, s);
    var rest := s[t.used..];
    var head, tail := s[..t.used + later], s[t.used + later..];
    assert s == head + tail;
    StepLess(p, head, tail);
    FitsLess(p, head, tail);
    StepProgress(p, s);
    assert head[t.used..] == rest[..later];
    var first := First(t);
    var o, part := Drain(t.next, rest), Drain(t.next, rest[..later]);
    DrainOn(p, s);
    DrainOn(p, head);
    assert (first + o.commands)[|first|..] == o.commands && (first + part.commands)[|first|..] == part.commands;
  }

  lemma FitsLess(p: Parser, a: Bytes, b: Bytes)
    requires LineFits(p, a + b)
    ensures LineFits(p, a)
  {
    hide FindCrlf, FindNewline;
    CrlfMore(a, b, 0);
    CrlfMore(a, b, 1);
    NewlineMore(a, b);
  }

  // ---------------------------------------------------------------- the theorem

  ghost predicate AnyChunking(s: Bytes) {
    forall chunks: seq<Bytes> :: Joined(chunks) == s ==> Fed(FRESH, [], chunks) == Drain(FRESH, s)
  }

  lemma FreshAtRest()
    ensures Sound(FRESH) && AtRest(FRESH, [])
  {
  }

  lemma FittingChunks(s: Bytes, chunks: seq<Bytes>)
    requires NoLongLine(FRESH, s) && Joined(chunks) == s
    ensures Fed(FRESH, [], chunks) == Drain(FRESH, s)
  {
    FreshAtRest();
    hide Drain, NoLongLine, Step, AtRest, Fed, Joined;
    assert [] + s == s;
    FedIsDrained(FRESH, [], chunks);
  }

  lemma LongLineDiffers(s: Bytes)
    requires !NoLongLine(FRESH, s)
    ensures Fed(FRESH, [], Singles(s)) != Drain(FRESH, s)
  {
    hide Drain, NoLongLine, Step, AtRest, Fed, Joined, Singles;
    var cut := LongLineShows(FRESH, s);
    var head, tail := s[..cut], s[cut..];
    assert s == head + tail;
    SinglesConcat(head, tail);
    JoinedSingles(head);
    FittingChunks(head, Singles(head));
    FedStops(FRESH, [], Singles(head), Singles(tail));
  }

  /** Feeding a stream in pieces gives what feeding it whole gives, whatever the
      pieces, exactly when every line fits; and if any cutting shows a difference then
      one byte at a time does. */
  lemma ChunkingExact(s: Bytes)
    ensures NoLongLine(FRESH, s) <==> AnyChunking(s)
    ensures NoLongLine(FRESH, s) <==> Fed(FRESH, [], Singles(s)) == Drain(FRESH, s)
  {
    hide Drain, NoLongLine, Step, Fed, Joined, Singles;
    JoinedSingles(s);
    if NoLongLine(FRESH, s) {
      forall chunks: seq<Bytes> | Joined(chunks) == s
        ensures Fed(FRESH, [], chunks) == Drain(FRESH, s)
      {
        FittingChunks(s, chunks);
      }
    } else {
      LongLineDiffers(s);
    }
  }

  /** A stream for which it does matter, MAX_LINE + 1 letters and a newline: read whole it is
      one command, read a byte at a time it is refused. */
  lemma LongLineHappens() returns (s: Bytes)
    ensures s == Repeat<byte>(97, MAX_LINE + 1) + [LF]
    ensures !NoLongLine(FRESH, s) && !AnyChunking(s) && Fed(FRESH, [], Singles(s)) != Drain(FRESH, s)
  {
    hide FindCrlf, ParseI64, Words, AppendLast, FindNewline, Fed, Singles, Drain;
    s := Repeat<byte>(97, MAX_LINE + 1) + [LF];
    var p := FRESH.(phase := ReadingInline);
    assert s[0] == 97 && s[0..] == s && s[MAX_LINE + 1] == LF;
    assert forall i :: 0 <= i <= MAX_LINE ==> s[i] == 97;
    assert FindNewline(s, 0) == Some(MAX_LINE + 1);
    assert !LineFits(p, s);
    assert !NoLongLine(p, s);
    assert Step(FRESH, s) == GoOn(p, 0);
    ChunkingExact(s);
  }
}
