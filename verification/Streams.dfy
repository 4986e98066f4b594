/** One client's view of the event loop: which commands of its stream are executed. */
module Streams {
  import opened ByteStrings
  import opened Resp
  import opened RespChunking
  import opened Traffic
  import Connection
  import RunModel

  /** The commands taken from a stream so far, where its reading stands, and the reason it was
      given up for, if it was. */
  datatype Stream = Stream(commands: seq<Command>, parser: SoundParser, held: Bytes, closing: bool, reasons: seq<Bytes>)

  const FRESH_STREAM := Stream([], FRESH, [], false, [])

  function StreamOf(w: Wire, fd: int): Stream {
    var conn := ConnOf(w.conns, fd);
    Stream(CommandsOf(w.log, fd), conn.parser, conn.held, conn.closing, ReasonsTo(w.log, fd))
  }

  /** One more read of a stream. */
  function Hear(b: Stream, chunk: Bytes): Stream {
    if b.closing then b
    else if |b.held| + |chunk| > Connection.MAX_READ_BUFFER 
    then b.(closing := true, reasons := b.reasons + [Connection.TooLarge()])
    else
      var s := b.held + chunk;
      var d := Drain(b.parser, s);
      Stream(b.commands + d.commands, d.parser, s[d.used..], d.error.Some?,
             b.reasons + if d.error.Some? then [Connection.Refusal(d.error.value)] else [])
  }

  function HearAll(b: Stream, chunks: seq<Bytes>): Stream
    decreases |chunks|
  {
    if chunks == [] then b else HearAll(Hear(b, chunks[0]), chunks[1..])
  }

  /** The reads of one connection, among all. */
  function ReadsIn(es: seq<Event>, fd: int): seq<Bytes> {
    if es == [] then []
    else
      var last := es[|es| - 1];
      ReadsIn(es[..|es| - 1], fd) + if last.fd == fd then [last.bytes] else []
  }

  function ReadsOf(ts: seq<Tick>, fd: int): seq<Bytes> {
    if ts == [] then [] else ReadsOf(ts[..|ts| - 1], fd) + ReadsIn(ts[|ts| - 1].events, fd)
  }

  lemma {:induction false} HearConcat(b: Stream, first: seq<Bytes>, more: seq<Bytes>)
    ensures HearAll(b, first + more) == HearAll(HearAll(b, first), more)
    decreases |first|
  {
    hide Hear;
    if first == [] {
      assert first + more == more;
    } else {
      assert (first + more)[1..] == first[1..] + more;
      HearConcat(Hear(b, first[0]), first[1..], more);
    }
  }

  lemma HearOne(b: Stream, chunk: Bytes)
    ensures HearAll(b, [chunk]) == Hear(b, chunk)
  {
    hide Hear;
  }

  lemma CommandsSnoc(log: seq<Entry>, e: Entry, fd: int)
    ensures CommandsOf(log + [e], fd) == CommandsOf(log, fd) + if e.Served? && e.fd == fd then [e.command] else []
  {
    assert (log + [e])[..|log|] == log;
  }

  lemma ReasonsSnoc(log: seq<Entry>, e: Entry, fd: int)
    ensures ReasonsTo(log + [e], fd) == ReasonsTo(log, fd) + if e.HungUp? && e.fd == fd then [e.reply] else []
  {
    assert (log + [e])[..|log|] == log;
  }

  // ---------------------------------------------------------------- the loop hears its clients

  lemma {:induction false} ExecutedHeard(table: CommandTable, w: Wire, cs: seq<Command>, e: Event, fd: int)
    ensures StreamOf(ExecutedAll(table, w, cs, e), fd) ==
      var b := StreamOf(w, fd); if e.fd == fd then b.(commands := b.commands + cs) else b
    decreases |cs|
  {
    hide RunModel.Answer, Effect, CommandsOf, ReasonsTo;
    if cs != [] {
      var n := |cs| - 1;
      ExecutedHeard(table, w, cs[..n], e, fd);
      var v := ExecutedAll(table, w, cs[..n], e);
      var next := ExecutedAll(table, w, cs, e);
      CommandsSnoc(v.log, next.log[|v.log|], fd);
      ReasonsSnoc(v.log, next.log[|v.log|], fd);
      assert next.log == v.log + [next.log[|v.log|]];
      assert cs[..n] + [cs[n]] == cs;
    }
  }

  lemma HangHeard(w: Wire, fd: int, reply: Bytes, other: int)
    ensures StreamOf(Hang(w, fd, reply), other) ==
      var b := StreamOf(w, other);
      if fd == other then b.(closing := true, reasons := b.reasons + [reply]) else b
  {
    hide CommandsOf, ReasonsTo;
    CommandsSnoc(w.log, HungUp(fd, reply), other);
    ReasonsSnoc(w.log, HungUp(fd, reply), other);
  }

  lemma ServicedHeard(table: CommandTable, w: Wire, e: Event, fd: int)
    ensures StreamOf(Serviced(table, w, e), fd) ==
      if e.fd == fd then Hear(StreamOf(w, fd), e.bytes) else StreamOf(w, fd)
  {
    hide CommandsOf, ReasonsTo, Drain, ExecutedAll, Hang, Connection.Refusal, Connection.TooLarge;
    var conn := ConnOf(w.conns, e.fd);
    if !conn.closing {
      if |conn.held| + |e.bytes| > Connection.MAX_READ_BUFFER {
        HangHeard(w, e.fd, Connection.TooLarge(), fd);
      } else {
        var s := conn.held + e.bytes;
        var d := Drain(conn.parser, s);
        ExecutedHeard(table, w, d.commands, e, fd);
        var v := Absorbed(ExecutedAll(table, w, d.commands, e), e.fd, d.parser, s[d.used..]);
        if d.error.Some? { HangHeard(v, e.fd, Connection.Refusal(d.error.value), fd); }
      }
    }
  }

  lemma {:induction false} ServicedAllHeard(table: CommandTable, w: Wire, es: seq<Event>, fd: int)
    ensures StreamOf(ServicedAll(table, w, es), fd) == HearAll(StreamOf(w, fd), ReadsIn(es, fd))
    decreases |es|
  {
    hide Serviced, StreamOf, Hear;
    if es != [] {
      var init, last := es[..|es| - 1], es[|es| - 1];
      ServicedAllHeard(table, w, init, fd);
      ServicedHeard(table, ServicedAll(table, w, init), last, fd);
      if last.fd == fd {
        HearConcat(StreamOf(w, fd), ReadsIn(init, fd), [last.bytes]);
        HearOne(HearAll(StreamOf(w, fd), ReadsIn(init, fd)), last.bytes);
      } else {
        assert ReadsIn(init, fd) + [] == ReadsIn(init, fd);
      }
    }
  }

  lemma {:induction false} ReleasedAllHeard(w: Wire, es: seq<Event>, fd: int)
    ensures StreamOf(ReleasedAll(w, es), fd) == StreamOf(w, fd)
  {
    hide CommandsOf, ReasonsTo;
    if es != [] { ReleasedAllHeard(w, es[..|es| - 1], fd); }
  }

  lemma KeptHeard(w: Wire, t: Tick, fd: int)
    ensures StreamOf(Kept(w, t), fd) == StreamOf(w, fd)
  {
    hide CommandsOf, ReasonsTo;
    CommandsSnoc(w.log, Sweeping(t), fd);
    CommandsSnoc(w.log + [Sweeping(t)], Compacting(t), fd);
    ReasonsSnoc(w.log, Sweeping(t), fd);
    ReasonsSnoc(w.log + [Sweeping(t)], Compacting(t), fd);
  }

  /** However the reads of all clients interleave, each client's commands are those of its own
      reads, one after the other. */
  lemma {:induction false} EachStreamHeard(table: CommandTable, w: Wire, ts: seq<Tick>, fd: int)
    ensures StreamOf(TurnedAll(table, w, ts), fd) == HearAll(StreamOf(w, fd), ReadsOf(ts, fd))
    decreases |ts|
  {
    hide ServicedAll, ReleasedAll, Kept, StreamOf, ReadsIn;
    if ts != [] {
      var init, t := ts[..|ts| - 1], ts[|ts| - 1];
      EachStreamHeard(table, w, init, fd);
      var v := TurnedAll(table, w, init);
      ServicedAllHeard(table, v, t.events, fd);
      ReleasedAllHeard(ServicedAll(table, v, t.events), t.events, fd);
      KeptHeard(ReleasedAll(ServicedAll(table, v, t.events), t.events), t, fd);
      HearConcat(StreamOf(w, fd), ReadsOf(init, fd), ReadsIn(t.events, fd));
    }
  }

  // ---------------------------------------------------------------- what a stream amounts to

  lemma {:induction false} ClosedHears(b: Stream, chunks: seq<Bytes>)
    requires b.closing
    ensures HearAll(b, chunks) == b
    decreases |chunks|
  {
    if chunks != [] { ClosedHears(b, chunks[1..]); }
  }

  lemma {:induction false} HeardIsFed(b: Stream, chunks: seq<Bytes>)
    requires !b.closing && Connection.FitsAll(b.parser, b.held, chunks, Connection.MAX_READ_BUFFER)
    ensures var f := Fed(b.parser, b.held, chunks);
      && HearAll(b, chunks).commands == b.commands + f.commands && HearAll(b, chunks).closing == f.error.Some?
      && HearAll(b, chunks).reasons == b.reasons + if f.error.Some? then [Connection.Refusal(f.error.value)] else []
    decreases |chunks|
  {
    hide Drain;
    if chunks != [] {
      var d := Drain(b.parser, b.held + chunks[0]);
      if d.error.Some? {
        ClosedHears(Hear(b, chunks[0]), chunks[1..]);
      } else {
        HeardIsFed(Hear(b, chunks[0]), chunks[1..]);
      }
    }
  }

  /** From a first connection on: when no read overruns the buffer and no line is too long, a
      client's commands are those in its bytes, wherever the network cut them. */
  lemma StreamIsDrained(table: CommandTable, w: Wire, ts: seq<Tick>, fd: int)
    requires StreamOf(w, fd) == FRESH_STREAM
    requires Connection.FitsAll(FRESH, [], ReadsOf(ts, fd), Connection.MAX_READ_BUFFER)
    requires NoLongLine(FRESH, Joined(ReadsOf(ts, fd)))
    ensures var d, log := Drain(FRESH, Joined(ReadsOf(ts, fd))), TurnedAll(table, w, ts).log;
      && CommandsOf(log, fd) == d.commands
      && ReasonsTo(log, fd) == if d.error.Some? then [Connection.Refusal(d.error.value)] else []
  {
    hide Drain, NoLongLine, Turned, HearAll, TurnedAll, Fed, Connection.FitsAll, ReadsOf, Joined;
    EachStreamHeard(table, w, ts, fd);
    HeardIsFed(StreamOf(w, fd), ReadsOf(ts, fd));
    FittingChunks(Joined(ReadsOf(ts, fd)), ReadsOf(ts, fd));
  }
}
