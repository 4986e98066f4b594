/** One client: bytes in, commands executed in order, replies out. */
module Connection {
  import opened ByteStrings
  import opened Resp
  import opened RespParser
  import opened RespChunking

  const MAX_READ_BUFFER: nat := 512 * 1024 * 1024
  const COMPACT_THRESHOLD: nat := 64 * 1024

  // ---------------------------------------------------------------- error replies

  function AsciiByte(c: char): byte {
    if c < 128 as char then c as int else 63
  }

  function Ascii(text: string): Bytes {
    seq(|text|, i requires 0 <= i < |text| => AsciiByte(text[i]))
  }

  function Message(e: Error): (text: string) {
    match e
    case BadMultibulkLen => "Protocol error: invalid multibulk length"
    case BadBulkLen => "Protocol error: invalid bulk length"
    case ExpectedDollar => "Protocol error: expected '$'"
    case UnterminatedBulk => "Protocol error: bulk string not terminated by CRLF"
    case LineTooLong => "Protocol error: too big inline request"
    case AlreadyFailed => "Protocol error: framing lost"
  }

  /** `append_error` */
  function ErrorReply(text: Bytes): Bytes {
    [45] + text + [CR, LF]
  }

  function Refusal(e: Error): Bytes {
    ErrorReply(Ascii("ERR ") + Ascii(Message(e)))
  }

  function TooLarge(): Bytes {
    ErrorReply(Ascii("ERR Protocol error: request too large"))
  }

  // ---------------------------------------------------------------- the connection

  /** Whatever executes commands: it answers each with some bytes. */
  class Dispatcher {
    var executed: seq<Command>
    var replies: seq<Bytes>

    constructor ()
      ensures executed == [] && replies == []
    {
      executed, replies := [], [];
    }

    method Execute(command: Command) returns (reply: Bytes)
      modifies this
      ensures executed == old(executed) + [command] && replies == old(replies) + [reply]
    {
      reply := *;
      executed, replies := executed + [command], replies + [reply];
    }
  }

  class Connection {
    const parser: RespParser
    const maxReadBuffer: nat
    var input: Bytes
    var output: Bytes
    var outPos: nat
    var closing: bool

    ghost var queued: Bytes   // every byte ever put in the output
    ghost var sent: Bytes     // every byte the socket has taken

    ghost predicate Valid()
      reads this, parser
    {
      && Sound(parser.State()) && outPos <= |output|
      && queued == sent + output[outPos..]
      && (!closing ==> AtRest(parser.State(), input))
    }

    constructor (limit: nat)
      ensures Valid() && parser.State() == FRESH && fresh(parser) && maxReadBuffer == limit
      ensures input == output == queued == sent == [] && !closing
    {
      parser := new RespParser();
      maxReadBuffer := limit;
      input, output, outPos, closing, queued, sent := [], [], 0, false, [], [];
    }

    method Queue(bytes: Bytes)
      requires outPos <= |output| && queued == sent + output[outPos..]
      modifies this`output, this`queued
      ensures outPos <= |output| && queued == sent + output[outPos..]
      ensures queued == old(queued) + bytes
    {
      assert (output + bytes)[outPos..] == output[outPos..] + bytes;
      output := output + bytes;
      queued := queued + bytes;
    }

    /** Parse, execute, parse again, until the buffer holds no whole command. */
    method ExecuteBuffered(dispatcher: Dispatcher) returns (consumed: nat, ghost replies: seq<Bytes>)
      requires Sound(parser.State()) && outPos <= |output| && queued == sent + output[outPos..] && !closing
      modifies this`output, this`queued, this`closing, parser, dispatcher
      ensures var d := Drain(old(parser.State()), input);
        && dispatcher.executed == old(dispatcher.executed) + d.commands
        && parser.State() == d.parser && consumed == d.used && closing == d.error.Some?
        && dispatcher.replies == old(dispatcher.replies) + replies && |replies| == |d.commands|
        && queued == old(queued) + Joined(replies) + (if closing then Refusal(d.error.value) else [])
      ensures outPos <= |output| && queued == sent + output[outPos..]
    {
      hide Drain, Parse, Joined, Refusal, Sound;
      consumed, replies := 0, [];
      ghost var done: seq<Command> := [];
      assert input[0..] == input;
      JoinedNone();
      while true
        invariant consumed <= |input| && Sound(parser.State()) && !closing
        invariant Drain(old(parser.State()), input) == Later(Drain(parser.State(), input[consumed..]), done, consumed)
        invariant dispatcher.executed == old(dispatcher.executed) + done
        invariant dispatcher.replies == old(dispatcher.replies) + replies && |replies| == |done|
        invariant queued == old(queued) + Joined(replies)
        invariant outPos <= |output| && queued == sent + output[outPos..]
        decreases |input| - consumed
      {
        DrainByParse(parser.State(), input[consumed..]);
        var t := parser.Parse(input[consumed..]);
        assert input[consumed..][t.used..] == input[consumed + t.used..];
        if t.Complete? {
          LaterTwice(Drain(t.next, input[consumed + t.used..]), [t.command], t.used, done, consumed);
        }
        consumed := consumed + t.used;
        if t.Complete? {
          var reply := dispatcher.Execute(t.command);
          Queue(reply);
          JoinedSnoc(replies, reply);
          done, replies := done + [t.command], replies + [reply];
          continue;
        }
        if t.Fail? {
          Queue(Refusal(t.error));
          closing := true;
        }
        return;
      }
    }

    /** False when the connection is finished: the reason has been queued. */
    method OnBytes(bytes: Bytes, dispatcher: Dispatcher) returns (open: bool, ghost replies: seq<Bytes>)
      requires Valid()
      modifies this, parser, dispatcher
      ensures Valid() && sent == old(sent) && open == !closing
      ensures old(closing) ==>
        closing && queued == old(queued) && input == old(input) && dispatcher.executed == old(dispatcher.executed)
      ensures !old(closing) && |old(input)| + |bytes| > maxReadBuffer ==>
        && closing && queued == old(queued) + TooLarge() && input == old(input)
        && dispatcher.executed == old(dispatcher.executed)
      ensures !old(closing) && |old(input)| + |bytes| <= maxReadBuffer ==>
        var s := old(input) + bytes; var d := Drain(old(parser.State()), s);
        && dispatcher.executed == old(dispatcher.executed) + d.commands
        && parser.State() == d.parser && input == s[d.used..] && closing == d.error.Some?
        && dispatcher.replies == old(dispatcher.replies) + replies && |replies| == |d.commands|
        && queued == old(queued) + Joined(replies) + (if closing then Refusal(d.error.value) else [])
    {
      hide Drain, AtRest, Joined, Refusal, TooLarge;
      replies := [];
      if closing { return false, replies; }
      if |input| + |bytes| > maxReadBuffer {
        Queue(TooLarge());
        closing := true;
        return false, replies;
      }
      input := input + bytes;
      DrainRests(parser.State(), input);
      var consumed;
      consumed, replies := ExecuteBuffered(dispatcher);
      input := input[consumed..];
      open := !closing;
    }

    // -------------------------------------------------------------- output

    function PendingOutput(): Bytes
      requires outPos <= |output|
      reads this
    {
      output[outPos..]
    }

    /** The reason has gone out and nothing else is left to say. */
    predicate ShouldClose()
      requires outPos <= |output|
      reads this
    {
      closing && PendingOutput() == []
    }

    /** The socket took `n` bytes. The written prefix is dropped now and then, which
        nobody can see. */
    method ConsumeOutput(n: nat)
      requires Valid() && n <= |PendingOutput()|
      modifies this`output, this`outPos, this`sent
      ensures Valid() && queued == old(queued)
      ensures sent == old(sent) + old(PendingOutput())[..n]
      ensures PendingOutput() == old(PendingOutput())[n..]
      ensures ShouldClose() <==> closing && sent == queued
    {
      hide AtRest;
      ghost var pending := PendingOutput();
      sent := sent + pending[..n];
      outPos := outPos + n;
      assert output[outPos..] == pending[n..];
      assert pending[..n] + pending[n..] == pending;
      if outPos == |output| {
        output := [];
        outPos := 0;
      } else if outPos >= COMPACT_THRESHOLD && outPos * 2 >= |output| {
        output := output[outPos..];
        outPos := 0;
      }
    }
  }

  lemma JoinedNone()
    ensures Joined([]) == []
  {
  }

  // ---------------------------------------------------------------- a whole stream

  /** No read overruns the buffer. */
  predicate FitsAll(p: Parser, held: Bytes, chunks: seq<Bytes>, limit: nat)
    requires Sound(p)
    decreases |chunks|
  {
    chunks == [] ||
    (var s := held + chunks[0]; var d := Drain(p, s);
     |s| <= limit && (d.error.Some? || FitsAll(d.parser, s[d.used..], chunks[1..], limit)))
  }

  /** A client's stream, read by read. What is executed is what the stream fed in those
      pieces amounts to; so when every line fits, it is what the stream amounts to, and
      no two ways of cutting it can be told apart. */
  method Receive(c: Connection, dispatcher: Dispatcher, chunks: seq<Bytes>)
    requires c.Valid() && !c.closing && FitsAll(c.parser.State(), c.input, chunks, c.maxReadBuffer)
    modifies c, c.parser, dispatcher
    ensures c.Valid()
    ensures var f := Fed(old(c.parser.State()), old(c.input), chunks);
      && dispatcher.executed == old(dispatcher.executed) + f.commands
      && c.parser.State() == f.parser && c.closing == f.error.Some?
    ensures NoLongLine(old(c.parser.State()), old(c.input) + Joined(chunks)) ==>
      var d := Drain(old(c.parser.State()), old(c.input) + Joined(chunks));
      && dispatcher.executed == old(dispatcher.executed) + d.commands
      && c.parser.State() == d.parser && c.closing == d.error.Some?
  {
    hide Drain, NoLongLine, AtRest, Sound;
    ghost var done: seq<Command> := [];
    ghost var used: nat := 0;
    assert chunks[0..] == chunks;
    for i := 0 to |chunks|
      invariant c.Valid()
      invariant dispatcher.executed == old(dispatcher.executed) + done
      invariant !c.closing ==> FitsAll(c.parser.State(), c.input, chunks[i..], c.maxReadBuffer)
      invariant var f := Fed(old(c.parser.State()), old(c.input), chunks);
        if c.closing then f.commands == done && f.parser == c.parser.State() && f.error.Some?
        else f == Later(Fed(c.parser.State(), c.input, chunks[i..]), done, used)
    {
      if c.closing { continue; }
      assert chunks[i..][1..] == chunks[i + 1..];
      ghost var d := Drain(c.parser.State(), c.input + chunks[i]);
      var _, _ := c.OnBytes(chunks[i], dispatcher);
      done, used := done + d.commands, used + d.used;
    }
    assert chunks[|chunks|..] == [];
    if NoLongLine(old(c.parser.State()), old(c.input) + Joined(chunks)) {
      FedIsDrained(old(c.parser.State()), old(c.input), chunks);
    }
  }
}
