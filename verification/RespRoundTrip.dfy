/** What is written in the protocol is read back, byte for byte and argument for
    argument, whatever follows it on the stream. */
module RespRoundTrip {
  import opened ByteStrings
  import opened DecimalBytes
  import opened Resp

  const CRLF: Bytes := [CR, LF]

  /** `append_bulk_string` */
  function Bulk(s: Bytes): Bytes {
    [DOLLAR] + Spelled(|s|) + CRLF + s + CRLF
  }

  /** `append_array_header` */
  function ArrayHeader(n: int): Bytes {
    [STAR] + Spelled(n) + CRLF
  }

  function Bulks(args: Command): Bytes {
    if args == [] then [] else Bulk(args[0]) + Bulks(args[1..])
  }

  function Request(args: Command): Bytes {
    ArrayHeader(|args|) + Bulks(args)
  }

  predicate Sendable(args: Command) {
    1 <= |args| <= MAX_MULTIBULK && forall i :: 0 <= i < |args| ==> |args[i]| <= MAX_BULK
  }

  // ---------------------------------------------------------------- header lines

  lemma NoCrInSpelled(n: int)
    ensures forall i :: 0 <= i < |Spelled(n)| ==> Spelled(n)[i] != CR && Spelled(n)[i] != LF
  {
    var digits := FromDigits(Decimal.DigitsOf(if n < 0 then -n else n));
    assert AllDigits(digits);
  }

  lemma FirstCrlf(s: Bytes, from: nat, end: nat)
    requires from <= end && end + 2 <= |s| && s[end] == CR && s[end + 1] == LF
    requires forall i :: from <= i < end ==> s[i] != CR
    ensures FindCrlf(s, from) == Some(end)
  {
    var at := FindCrlf(s, from);
    hide FindCrlf;
    assert at.Some? ==> at.value >= end;
  }

  lemma TextEnds(mark: Bytes, text: Bytes, rest: Bytes)
    requires forall i :: 0 <= i < |text| ==> text[i] != CR
    ensures var s := mark + text + CRLF + rest; var end := |mark| + |text|;
      && |s| == end + 2 + |rest| && s[|mark|..end] == text && s[end + 2..] == rest
      && FindCrlf(s, |mark|) == Some(end)
  {
    hide FindCrlf;
    var s, end := mark + text + CRLF + rest, |mark| + |text|;
    assert s[|mark|..end] == text;
    forall i | |mark| <= i < end
      ensures s[i] != CR
    {
      assert s[i] == text[i - |mark|];
    }
    FirstCrlf(s, |mark|, end);
  }

  /** A header line ends where its number ends. */
  lemma LineEnds(mark: Bytes, n: int, rest: Bytes)
    ensures var s := mark + Spelled(n) + CRLF + rest;
      && FindCrlf(s, |mark|) == Some(|mark| + |Spelled(n)|)
      && s[|mark|..|mark| + |Spelled(n)|] == Spelled(n)
      && s[|mark| + |Spelled(n)| + 2..] == rest
  {
    NoCrInSpelled(n);
    hide Spelled, FindCrlf;
    TextEnds(mark, Spelled(n), rest);
  }

  // ---------------------------------------------------------------- one argument

  /** `parse` after a turn that goes on. */
  lemma ParseOn(p: Parser, s: Bytes, next: Parser, used: nat)
    requires Sound(p) && Step(p, s) == GoOn(next, used)
    ensures Sound(next) && used <= |s|
    ensures var t := Parse(next, s[used..]);
      t.Complete? ==> Parse(p, s) == Complete(t.command, t.next, used + t.used)
    ensures var t := Parse(next, s[used..]);
      t.Fail? ==> Parse(p, s) == Fail(t.error, t.next, used + t.used)
  {
    hide Step;
    StepProgress(p, s);
  }

  lemma ReadBulkLine(p: Parser, arg: Bytes, rest: Bytes)
    requires p.phase.ReadingBulkLen? && Sound(p) && |arg| <= MAX_BULK
    ensures var s := Bulk(arg) + rest; var used := 1 + |Spelled(|arg|)| + 2;
      && Step(p, s) == GoOn(p.(phase := ReadingBulkBody, bulk := |arg|, pending := p.pending + [[]]), used)
      && used <= |s| && s[used..] == arg + CRLF + rest
  {
    var n := |arg|;
    LineEnds([DOLLAR], n, arg + CRLF + rest);
    DenotesSpelled(n);
    hide FindCrlf, FindNewline, Denotes, Words, Spelled;
    assert Bulk(arg) + rest == [DOLLAR] + Spelled(n) + CRLF + (arg + CRLF + rest);
  }

  lemma ReadBody(p: Parser, arg: Bytes, rest: Bytes)
    requires p.phase.ReadingBulkBody? && Sound(p) && p.bulk == |arg|
    requires p.pending[|p.pending| - 1] == []
    ensures var s := arg + CRLF + rest;
      && Step(p, s) ==
         GoOn(Parser(ReadingBulkCrlf, p.pending[..|p.pending| - 1] + [arg], p.multibulk, 0), |arg|)
      && s[|arg|..] == CRLF + rest
  {
    var s := arg + CRLF + rest;
    assert s[..|arg|] == arg && [] + arg == arg;
    assert s[|arg|..] == CRLF + rest;
  }

  lemma ReadCrlf(p: Parser, rest: Bytes)
    requires p.phase.ReadingBulkCrlf? && Sound(p)
    ensures Step(p, CRLF + rest) ==
      if p.multibulk == 1 then Complete(p.pending, FRESH, 2)
      else GoOn(p.(phase := ReadingBulkLen, multibulk := p.multibulk - 1), 2)
    ensures (CRLF + rest)[2..] == rest
  {
  }

  /** One argument, from its header to the end of its payload. */
  lemma ReadArg(p: Parser, arg: Bytes, later: Bytes)
    requires p.phase.ReadingBulkLen? && Sound(p) && |arg| <= MAX_BULK
    ensures var p2 := Parser(ReadingBulkCrlf, p.pending + [arg], p.multibulk, 0);
      && Sound(p2)
      && var t := Parse(p2, CRLF + later);
         t.Complete? ==>
           Parse(p, Bulk(arg) + later) == Complete(t.command, t.next, 1 + |Spelled(|arg|)| + 2 + |arg| + t.used)
  {
    hide Step, Spelled, Bulk;
    ReadBulkLine(p, arg, later);
    var p1 := p.(phase := ReadingBulkBody, bulk := |arg|, pending := p.pending + [[]]);
    ReadBody(p1, arg, later);
    assert p1.pending[..|p.pending|] == p.pending;
    hide Parse;
    ParseOn(p1, arg + CRLF + later, Parser(ReadingBulkCrlf, p.pending + [arg], p.multibulk, 0), |arg|);
    ParseOn(p, Bulk(arg) + later, p1, 1 + |Spelled(|arg|)| + 2);
  }

  /** The remaining arguments of a request, whatever the parser has already. */
  lemma {:induction false} ReadBulks(p: Parser, args: Command, rest: Bytes)
    requires p.phase.ReadingBulkLen? && Sound(p) && p.multibulk == |args|
    requires forall i :: 0 <= i < |args| ==> |args[i]| <= MAX_BULK
    ensures Parse(p, Bulks(args) + rest) == Complete(p.pending + args, FRESH, |Bulks(args)|)
    decreases |args|
  {
    hide Step, Spelled;
    var arg, later := args[0], Bulks(args[1..]) + rest;
    assert Bulks(args) + rest == Bulk(arg) + later;
    ReadArg(p, arg, later);
    var p2 := Parser(ReadingBulkCrlf, p.pending + [arg], p.multibulk, 0);
    ReadCrlf(p2, later);
    if |args| == 1 {
      assert Parse(p2, CRLF + later) == Complete(p.pending + args, FRESH, 2);
    } else {
      var p3 := p2.(phase := ReadingBulkLen, multibulk := |args| - 1);
      ReadBulks(p3, args[1..], rest);
      assert (p.pending + [arg]) + args[1..] == p.pending + args;
      hide Parse;
      ParseOn(p2, CRLF + later, p3, 2);
    }
  }

  // ---------------------------------------------------------------- requests

  lemma ReadHeader(n: int, rest: Bytes)
    requires IsInt64(n) && n <= MAX_MULTIBULK
    ensures var s := ArrayHeader(n) + rest; var line := s[1..];
      && Step(FRESH, s) == GoOn(FRESH.(phase := ReadingMultibulkLen), 1)
      && Step(FRESH.(phase := ReadingMultibulkLen), line) ==
         GoOn(if n <= 0 then FRESH else Parser(ReadingBulkLen, [], n, 0), |Spelled(n)| + 2)
      && line[|Spelled(n)| + 2..] == rest
  {
    LineEnds([], n, rest);
    DenotesSpelled(n);
    hide FindCrlf, FindNewline, Denotes, Words, Spelled;
    assert ArrayHeader(n) + rest == [STAR] + (Spelled(n) + CRLF + rest);
    assert [] + Spelled(n) + CRLF + rest == Spelled(n) + CRLF + rest;
    var line := Spelled(n) + CRLF + rest;
    assert line[..|Spelled(n)|] == line[0..|Spelled(n)|];
  }

  /** A request comes back as its arguments, and the parser stops at its last byte. */
  lemma RequestRoundTrip(args: Command, rest: Bytes)
    requires Sendable(args)
    ensures Parse(FRESH, Request(args) + rest) == Complete(args, FRESH, |Request(args)|)
  {
    hide Step, Spelled, Bulks;
    var later := Bulks(args) + rest;
    assert Request(args) + rest == ArrayHeader(|args|) + later;
    ReadHeader(|args|, later);
    var p1, p2 := FRESH.(phase := ReadingMultibulkLen), Parser(ReadingBulkLen, [], |args|, 0);
    ReadBulks(p2, args, rest);
    assert [] + args == args;
    hide Parse;
    ParseOn(p1, (ArrayHeader(|args|) + later)[1..], p2, |Spelled(|args|)| + 2);
    ParseOn(FRESH, ArrayHeader(|args|) + later, p1, 1);
  }

  /** So no request can be mistaken for another, nor for one followed by something. */
  lemma RequestsSelfDelimiting(a: Command, b: Command, x: Bytes, y: Bytes)
    requires Sendable(a) && Sendable(b) && Request(a) + x == Request(b) + y
    ensures a == b && x == y
  {
    hide Parse, Request, Sendable;
    RequestRoundTrip(a, x);
    RequestRoundTrip(b, y);
    assert (Request(a) + x)[|Request(a)|..] == x && (Request(b) + y)[|Request(b)|..] == y;
  }

  /** A bulk reply carries any bytes at all, line breaks and whole replies included. */
  lemma BulksSelfDelimiting(a: Bytes, b: Bytes, x: Bytes, y: Bytes)
    requires |a| <= MAX_BULK && |b| <= MAX_BULK && Bulk(a) + x == Bulk(b) + y
    ensures a == b && x == y
  {
    var p := Parser(ReadingBulkLen, [], 1, 0);
    ReadBulks(p, [a], x);
    ReadBulks(p, [b], y);
    hide Parse, Spelled;
    assert Bulks([a]) == Bulk(a) + [] && Bulks([b]) == Bulk(b) + [];
    assert [] + [a] == [a] && [] + [b] == [b];
    hide Bulk;
    assert Bulk(a) + [] == Bulk(a) && Bulk(b) + [] == Bulk(b);
    assert (Bulk(a) + x)[|Bulk(a)|..] == x && (Bulk(b) + y)[|Bulk(b)|..] == y;
  }

  // ---------------------------------------------------------------- the null forms

  /** A count that is not positive, "*-1" as much as "*0", is skipped and not refused. */
  lemma NonPositiveCountSkipped(n: int, rest: Bytes)
    requires IsInt64(n) && n <= 0
    ensures Drain(FRESH, ArrayHeader(n) + rest) == Later(Drain(FRESH, rest), [], |ArrayHeader(n)|)
  {
    hide Spelled;
    ReadHeader(n, rest);
    hide Step;
    var s := ArrayHeader(n) + rest;
    StepProgress(FRESH, s);
    StepProgress(FRESH.(phase := ReadingMultibulkLen), s[1..]);
    var o := Drain(FRESH, rest);
    assert [] + ([] + o.commands) == [] + o.commands;
  }

  // ---------------------------------------------------------------- what is refused

  predicate NoCr(line: Bytes) {
    forall i :: 0 <= i < |line| ==> line[i] != CR
  }

  lemma BareTextEnds(text: Bytes, rest: Bytes)
    requires NoCr(text)
    ensures var s := text + CRLF + rest;
      |s| == |text| + 2 + |rest| && s[..|text|] == text && FindCrlf(s, 0) == Some(|text|)
  {
    TextEnds([], text, rest);
    hide FindCrlf;
    assert [] + text == text;
    var s := text + CRLF + rest;
    assert s[..|text|] == s[0..|text|];
  }

  /** A count line is refused exactly when it is not a 64-bit number or is too large. */
  lemma CountRefused(p: Parser, line: Bytes, rest: Bytes)
    requires p.phase.ReadingMultibulkLen? && NoCr(line)
    ensures var t := Step(p, line + CRLF + rest); var n := Denotes(line);
      if n.Some? && IsInt64(n.value) && n.value <= 1048576 then t.GoOn? && t.used == |line| + 2
      else t == GiveUp(p, BadMultibulkLen)
  {
    hide FindCrlf, FindNewline, Denotes, Words;
    BareTextEnds(line, rest);
  }

  /** A length line is refused exactly when it does not start with the dollar, or is not a
      64-bit number, or is negative, or is too large. */
  lemma LengthRefused(p: Parser, mark: byte, line: Bytes, rest: Bytes)
    requires p.phase.ReadingBulkLen? && Sound(p) && NoCr(line)
    ensures var t := Step(p, [mark] + line + CRLF + rest); var n := Denotes(line);
      if mark != DOLLAR then t == GiveUp(p, ExpectedDollar)
      else if n.Some? && IsInt64(n.value) && 0 <= n.value <= 536870912 then t.GoOn? && t.used == |line| + 3
      else t == GiveUp(p, BadBulkLen)
  {
    TextEnds([mark], line, rest);
    hide FindCrlf, FindNewline, Denotes, Words;
    assert ([mark] + line + CRLF + rest)[0] == mark;
  }

  /** A payload is refused exactly when two other bytes than CR LF follow it. */
  lemma PayloadRefused(p: Parser, a: byte, b: byte, rest: Bytes)
    requires p.phase.ReadingBulkCrlf? && Sound(p)
    ensures Step(p, [a, b] + rest) == GiveUp(p, UnterminatedBulk) <==> [a, b] != CRLF
  {
    assert ([a, b] + rest)[0] == a && ([a, b] + rest)[1] == b;
  }

  /** A line whose end has not arrived is waited for up to 64 KB, and then refused. */
  lemma UnterminatedRefused(p: Parser, s: Bytes)
    requires Sound(p) && s != []
    requires
      || (p.phase.ReadingInline? && forall i :: 0 <= i < |s| ==> s[i] != 10)
      || (p.phase.ReadingMultibulkLen? && forall i :: 0 <= i < |s| - 1 ==> s[i] != 13 || s[i + 1] != 10)
      || (p.phase.ReadingBulkLen? && s[0] == 36 && forall i :: 1 <= i < |s| - 1 ==> s[i] != 13 || s[i + 1] != 10)
    ensures Step(p, s) == if |s| > 65536 then GiveUp(p, LineTooLong) else NeedMore(p, 0)
  {
    hide ParseI64, Words;
    if p.phase.ReadingInline? {
      assert FindNewline(s, 0).None?;
    } else if p.phase.ReadingMultibulkLen? {
      assert FindCrlf(s, 0).None?;
    } else {
      assert FindCrlf(s, 1).None?;
    }
  }

  // ---------------------------------------------------------------- inline commands

  /** A word that can be typed: something, and nothing the line is split at. */
  predicate Word(w: Bytes) {
    w != [] && forall i :: 0 <= i < |w| ==> !IsSpace(w[i]) && w[i] != LF
  }

  predicate Typed(words: Command) {
    && words != []
    && (forall i :: 0 <= i < |words| ==> Word(words[i]))
    && words[0][0] != STAR
    && (var last := words[|words| - 1]; last[|last| - 1] != CR)
  }

  function Spaced(words: Command): (line: Bytes)
    requires words != []
  {
    if |words| == 1 then words[0] else words[0] + [SPACE] + Spaced(words[1..])
  }

  lemma {:induction false} WordsSpaced(words: Command)
    requires words != [] && forall i :: 0 <= i < |words| ==> Word(words[i])
    ensures Words(Spaced(words), []) == words
    decreases |words|
  {
    var w := words[0];
    assert Word(w) && [] + w == w;
    if |words| == 1 {
      WordsTake(w, [], []);
      assert w + [] == w;
    } else {
      var line := Spaced(words[1..]);
      assert Spaced(words) == w + ([SPACE] + line);
      WordsTake(w, [SPACE] + line, []);
      assert ([SPACE] + line)[1..] == line;
      WordsSpaced(words[1..]);
      assert [w] + words[1..] == words;
    }
  }

  lemma {:induction false} SpacedShape(words: Command)
    requires words != [] && forall i :: 0 <= i < |words| ==> Word(words[i])
    ensures Word(words[0]) && Word(words[|words| - 1])
    ensures var line := Spaced(words); var last := words[|words| - 1];
      && line != [] && line[0] == words[0][0] && line[|line| - 1] == last[|last| - 1]
      && forall i :: 0 <= i < |line| ==> line[i] != LF
    decreases |words|
  {
    assert Word(words[0]);
    if |words| > 1 {
      SpacedShape(words[1..]);
    }
  }

  /** A line that does not begin with the star and holds a word is a command. */
  lemma LineIsInline(text: Bytes, cr: bool, rest: Bytes)
    requires text != [] && text[0] != STAR && text[|text| - 1] != CR && Words(text, []) != []
    requires forall i :: 0 <= i < |text| ==> text[i] != LF
    ensures var line := text + (if cr then [CR] else []) + [LF];
      Parse(FRESH, line + rest) == Complete(Words(text, []), FRESH, |line|)
  {
    hide Words, FindNewline;
    var p := FRESH.(phase := ReadingInline);
    var nl := |text| + (if cr then 1 else 0);
    var s := text + (if cr then [CR] else []) + [LF] + rest;
    assert s[nl] == LF && s[..|text|] == text && s[0..] == s;
    assert forall i :: 0 <= i < |text| ==> s[i] == text[i];
    assert cr ==> s[|text|] == CR;
    assert FindNewline(s, 0) == Some(nl);
    var words := Words(text, []);
    assert Step(p, s) == Complete(words, FRESH, nl + 1);
    assert Step(FRESH, s) == GoOn(p, 0);
    hide Step;
    assert Parse(p, s) == Complete(words, FRESH, nl + 1);
    hide Parse;
    ParseOn(FRESH, s, p, 0);
  }

  /** Words typed on a line come back as the arguments, whether the line ends in LF or
      in CR LF, and whatever the first byte is as long as it is not the star. */
  lemma InlineRoundTrip(words: Command, cr: bool, rest: Bytes)
    requires Typed(words)
    ensures var line := Spaced(words) + (if cr then [CR] else []) + [LF];
      Parse(FRESH, line + rest) == Complete(words, FRESH, |line|)
  {
    SpacedShape(words);
    WordsSpaced(words);
    hide Spaced, Words, FindNewline, Word, Parse;
    LineIsInline(Spaced(words), cr, rest);
  }

  lemma {:induction false} WordGoesOn(line: Bytes, word: Bytes)
    requires word != []
    ensures var words := Words(line, word); words != [] && word <= words[0]
    decreases |line|
  {
    if line != [] && !IsSpace(line[0]) { WordGoesOn(line[1..], word + [line[0]]); }
  }

  /** The reply prefixes '+', '-' and ':' are not refused: a line that begins with one is an
      inline command, whatever else is on it, and the prefix is part of its name. */
  lemma ReplyPrefixIsInline(prefix: byte, text: Bytes, cr: bool, rest: Bytes)
    requires prefix in {43, 45, 58} && (text == [] || text[|text| - 1] != CR)
    requires forall i :: 0 <= i < |text| ==> text[i] != LF
    ensures var line := [prefix] + text + (if cr then [CR] else []) + [LF]; var words := Words([prefix] + text, []);
      && Parse(FRESH, line + rest) == Complete(words, FRESH, |line|)
      && words != [] && words[0] != [] && words[0][0] == prefix
  {
    var line := [prefix] + text;
    assert line[1..] == text && [] + [prefix] == [prefix];
    WordGoesOn(text, [prefix]);
    assert Words(line, []) == Words(text, [prefix]);
    hide Words, Parse;
    LineIsInline(line, cr, rest);
  }

  // ---------------------------------------------------------------- any line at all

  /** Spaces and tabs. */
  predicate Blank(s: Bytes) {
    forall i :: 0 <= i < |s| ==> s[i] == 32 || s[i] == 9
  }

  /** Blanks hold no word. */
  lemma {:induction false} BlanksHoldNothing(blanks: Bytes, line: Bytes)
    requires Blank(blanks)
    ensures Words(blanks + line, []) == Words(line, [])
    decreases |blanks|
  {
    if blanks == [] {
      assert blanks + line == line;
    } else {
      assert (blanks + line)[1..] == blanks[1..] + line;
      BlanksHoldNothing(blanks[1..], line);
    }
  }

  /** What a whole line that does not begin with the star amounts to: one command, or nothing. */
  lemma InlineDrained(line: Bytes, rest: Bytes)
    requires (forall i :: 0 <= i < |line| ==> line[i] != 10) && (line != [] ==> line[0] != 42)
    ensures var text := if line != [] && line[|line| - 1] == 13 then line[..|line| - 1] else line;
      var words := Words(text, []);
      Drain(FRESH, line + [10] + rest) == Later(Drain(FRESH, rest), if words == [] then [] else [words], |line| + 1)
  {
    var p := FRESH.(phase := ReadingInline);
    var s := line + [10] + rest;
    var text := if line != [] && line[|line| - 1] == 13 then line[..|line| - 1] else line;
    hide Words;
    assert s[|line|] == LF && s[|line| + 1..] == rest && s[0..] == s;
    assert forall i :: 0 <= i < |line| ==> s[i] == line[i];
    assert FindNewline(s, 0) == Some(|line|);
    assert s[..|text|] == text;
    assert Step(p, s) == InlineLine(p, s, |line|);
    assert Step(FRESH, s) == GoOn(p, 0);
    hide Step, FindNewline;
    StepProgress(FRESH, s);
    StepProgress(p, s);
    var o := Drain(FRESH, rest);
    var found := if Words(text, []) == [] then [] else [Words(text, [])];
    assert Drain(p, s) == Later(o, found, |line| + 1);
    assert [] + (found + o.commands) == found + o.commands;
  }

  /** A blank line, with or without a carriage return, is skipped and not refused. */
  lemma BlankLineSkipped(blanks: Bytes, cr: bool, rest: Bytes)
    requires Blank(blanks)
    ensures var line := blanks + (if cr then [13] else []) + [10];
      Drain(FRESH, line + rest) == Later(Drain(FRESH, rest), [], |line|)
  {
    hide Words, Drain;
    var line := blanks + (if cr then [13] else []);
    InlineDrained(line, rest);
    assert cr ==> line[..|line| - 1] == blanks;
    assert blanks + [] == blanks;
    BlanksHoldNothing(blanks, []);
    NoWords();
  }

  lemma NoWords()
    ensures Words([], []) == []
  {
  }

  /** An inline line is refused only while its newline is missing. */
  lemma WholeLineNotRefused(p: Parser, line: Bytes, rest: Bytes)
    requires p.phase.ReadingInline? && forall i :: 0 <= i < |line| ==> line[i] != 10
    ensures Sound(p) && !Step(p, line + [10] + rest).Fail?
  {
    hide Words;
    var s := line + [10] + rest;
    assert s[|line|] == LF;
    assert FindNewline(s, 0).Some?;
  }

  /** A word with blanks in front of it. */
  datatype Piece = Piece(blanks: Bytes, word: Bytes)

  predicate Solid(word: Bytes) {
    word != [] && forall i :: 0 <= i < |word| ==> word[i] != 32 && word[i] != 9
  }

  predicate WellLaid(pieces: seq<Piece>) {
    forall i :: 0 <= i < |pieces| ==>
      (i > 0 ==> pieces[i].blanks != []) && Blank(pieces[i].blanks) && Solid(pieces[i].word)
  }

  function Laid(pieces: seq<Piece>): Bytes {
    if pieces == [] then [] else pieces[0].blanks + pieces[0].word + Laid(pieces[1..])
  }

  function WordsOf(pieces: seq<Piece>): (words: Command)
    ensures |words| == |pieces| && forall i :: 0 <= i < |pieces| ==> words[i] == pieces[i].word
  {
    seq(|pieces|, i requires 0 <= i < |pieces| => pieces[i].word)
  }

  /** Words set apart by any blanks, with any blanks before and after, are the words. */
  lemma {:induction false} WordsLaid(pieces: seq<Piece>, tail: Bytes)
    requires WellLaid(pieces) && Blank(tail)
    ensures Words(Laid(pieces) + tail, []) == WordsOf(pieces)
    decreases |pieces|
  {
    hide Words, Blank, Solid;
    if pieces == [] {
      assert Laid(pieces) + tail == tail + [];
      BlanksHoldNothing(tail, []);
      NoWords();
    } else {
      var more := Laid(pieces[1..]) + tail;
      var first := pieces[0];
      assert Laid(pieces) + tail == first.blanks + (first.word + more);
      BlanksHoldNothing(first.blanks, first.word + more);
      StartsBlank(pieces[1..], tail);
      OneWord(first.word, more);
      WordsLaid(pieces[1..], tail);
      assert WordsOf(pieces) == [first.word] + WordsOf(pieces[1..]);
    }
  }

  /** What follows a word begins with a blank, if anything does. */
  lemma StartsBlank(pieces: seq<Piece>, tail: Bytes)
    requires Blank(tail) && forall i :: 0 <= i < |pieces| ==> pieces[i].blanks != [] && Blank(pieces[i].blanks)
    ensures var more := Laid(pieces) + tail; more == [] || IsSpace(more[0])
  {
  }

  lemma OneWord(w: Bytes, more: Bytes)
    requires Solid(w) && (more == [] || IsSpace(more[0]))
    ensures Words(w + more, []) == [w] + Words(more, [])
  {
    WordsTake(w, more, []);
    assert [] + w == w;
    WordEnds(w, more);
  }

  /** A word ends at the first blank. */
  lemma WordEnds(w: Bytes, more: Bytes)
    requires w != []
    ensures more == [] || IsSpace(more[0]) ==> Words(more, w) == [w] + Words(more, [])
  {
    if more != [] && IsSpace(more[0]) {
      assert Words(more, []) == [] + Words(more[1..], []);
    }
  }

  /** One more byte in front. */
  lemma LaidMore(b: byte, pieces: seq<Piece>, tail: Bytes) returns (more: seq<Piece>, end: Bytes)
    requires WellLaid(pieces) && Blank(tail)
    ensures WellLaid(more) && Blank(end) && [b] + (Laid(pieces) + tail) == Laid(more) + end
  {
    hide Blank, Solid;
    assert Blank([]) && Blank([b] + tail) == (b == 32 || b == 9) by { BlankMore(b, tail); }
    more, end := pieces, tail;
    if b == 32 || b == 9 {
      if pieces == [] {
        end := [b] + tail;
      } else {
        BlankMore(b, pieces[0].blanks);
        more := [pieces[0].(blanks := [b] + pieces[0].blanks)] + pieces[1..];
        assert more[1..] == pieces[1..];
      }
    } else if pieces != [] && pieces[0].blanks == [] {
      SolidMore(b, pieces[0].word);
      more := [pieces[0].(word := [b] + pieces[0].word)] + pieces[1..];
      assert more[1..] == pieces[1..];
    } else {
      SolidMore(b, []);
      more := [Piece([], [b] + [])] + pieces;
      assert more[1..] == pieces;
    }
  }

  lemma BlankMore(b: byte, s: Bytes)
    requires Blank(s)
    ensures Blank([]) && Blank([b] + s) == (b == 32 || b == 9)
  {
    assert ([b] + s)[0] == b;
  }

  lemma SolidMore(b: byte, w: Bytes)
    requires b != 32 && b != 9 && (w == [] || Solid(w))
    ensures Solid([b] + w)
  {
  }

  /** And every line is laid out like that. */
  lemma {:induction false} EveryLineIsLaid(line: Bytes) returns (pieces: seq<Piece>, tail: Bytes)
    ensures WellLaid(pieces) && Blank(tail) && line == Laid(pieces) + tail
    ensures Words(line, []) == WordsOf(pieces)
    decreases |line|
  {
    hide WellLaid, Blank, Words, Laid;
    if line == [] {
      pieces, tail := [], [];
      NothingLaid();
    } else {
      pieces, tail := EveryLineIsLaid(line[1..]);
      assert line == [line[0]] + line[1..];
      pieces, tail := LaidMore(line[0], pieces, tail);
    }
    WordsLaid(pieces, tail);
  }

  lemma NothingLaid()
    ensures WellLaid([]) && Blank([]) && Laid([]) == []
  {
  }
}
