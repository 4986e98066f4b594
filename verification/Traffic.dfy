/** What the event loop should do, as its clients see it: bytes in, commands executed in
    order on one map, replies out. Nothing here knows of files. */
module Traffic {
  import opened ByteStrings
  import opened StoreModel
  import opened RunModel
  import opened KeyHistory
  import opened Resp
  import opened RespLimits
  import Connection

  // ---------------------------------------------------------------- entities

  /** The command table: the step a command stands for at the time it is executed, and how
      its result is put to the client. */
  datatype CommandTable = CommandTable(step: (Command, int) -> Step, reply: (Command, Result) -> Bytes)

  /** Commands with short arguments become steps the store can keep. */
  ghost predicate Sane(table: CommandTable) {
    forall c, now :: AllShort(c) && IsInt64(now) ==> Sendable(table.step(c, now))
  }

  type SoundParser = p: Parser | Sound(p) witness FRESH

  /** One connection: its parser, the bytes it has not absorbed, whether it is finished, and
      what is still to be written to it. */
  datatype Conn = Conn(parser: SoundParser, held: Bytes, closing: bool, out: Bytes)

  const FRESH_CONN := Conn(FRESH, [], false, [])

  function ConnOf(conns: map<int, Conn>, fd: int): Conn {
    if fd in conns then conns[fd] else FRESH_CONN
  }

  /** One readiness event: the bytes that arrived, the clock readings of the commands they
      complete, and how many reply bytes the socket will take when its turn comes. */
  datatype Event = Event(fd: int, bytes: Bytes, clocks: seq<int>, accepts: nat)

  function Reading(e: Event, i: nat): int {
    if i < |e.clocks| then e.clocks[i] else if e.clocks == [] then 0 else e.clocks[|e.clocks| - 1]
  }

  /** One turn: its events, the clock readings of its housekeeping, and whether the sync
      policy's interval has passed. */
  datatype Tick = Tick(events: seq<Event>, sweepAt: int, compactAt: int, due: bool)

  /** What the loop has done: answered a command, told a client it is hanging up, or looked
      after the store. */
  datatype Entry =
    | Served(step: Timed, fd: int, command: Command, reply: Bytes)
    | HungUp(fd: int, reply: Bytes)
    | Upkeep(step: Timed)

  datatype Send = Send(fd: int, bytes: Bytes)

  datatype Wire = Wire(log: seq<Entry>, model: Model, conns: map<int, Conn>, sends: seq<Send>)

  const SWEEP_BUDGET: nat := 100

  // ---------------------------------------------------------------- reading the log

  function StepsIn(e: Entry): seq<Timed> {
    if e.HungUp? then [] else [e.step]
  }

  function Steps(log: seq<Entry>): seq<Timed> {
    if log == [] then [] else Steps(log[..|log| - 1]) + StepsIn(log[|log| - 1])
  }

  /** What an entry owes a connection. */
  function Due(e: Entry, fd: int): Bytes {
    if !e.Upkeep? && e.fd == fd then e.reply else []
  }

  /** All the reply bytes a connection has been promised. */
  function RepliesTo(log: seq<Entry>, fd: int): Bytes {
    if log == [] then [] else RepliesTo(log[..|log| - 1], fd) + Due(log[|log| - 1], fd)
  }

  /** All the bytes it has been sent. */
  function SentTo(sends: seq<Send>, fd: int): Bytes {
    if sends == [] then []
    else
      var last := sends[|sends| - 1];
      SentTo(sends[..|sends| - 1], fd) + if last.fd == fd then last.bytes else []
  }

  /** The commands executed for a connection. */
  function CommandsOf(log: seq<Entry>, fd: int): seq<Command> {
    if log == [] then []
    else
      var last := log[|log| - 1];
      CommandsOf(log[..|log| - 1], fd) + if last.Served? && last.fd == fd then [last.command] else []
  }

  /** The reasons it was given for hanging up. */
  function ReasonsTo(log: seq<Entry>, fd: int): seq<Bytes> {
    if log == [] then []
    else
      var last := log[|log| - 1];
      ReasonsTo(log[..|log| - 1], fd) + if last.HungUp? && last.fd == fd then [last.reply] else []
  }

  // ---------------------------------------------------------------- what should happen

  ghost function Effect(m: Model, t: Timed): Model {
    if Sendable(t.step) && IsInt64(t.now) then After(m, t) else m
  }

  ghost function Executed(table: CommandTable, w: Wire, fd: int, c: Command, now: int): Wire {
    var t := Timed(table.step(c, now), now);
    var reply := table.reply(c, Answer(w.model, t));
    var conn := ConnOf(w.conns, fd);
    w.(log := w.log + [Served(t, fd, c, reply)], model := Effect(w.model, t),
       conns := w.conns[fd := conn.(out := conn.out + reply)])
  }

  ghost function ExecutedAll(table: CommandTable, w: Wire, cs: seq<Command>, e: Event): Wire {
    if cs == [] then w
    else
      var n := |cs| - 1;
      Executed(table, ExecutedAll(table, w, cs[..n], e), e.fd, cs[n], Reading(e, n))
  }

  /** Tell the client why, and read no more of it. */
  function Hang(w: Wire, fd: int, reply: Bytes): Wire {
    var conn := ConnOf(w.conns, fd);
    w.(log := w.log + [HungUp(fd, reply)], conns := w.conns[fd := conn.(closing := true, out := conn.out + reply)])
  }

  function Absorbed(w: Wire, fd: int, p: SoundParser, held: Bytes): Wire {
    w.(conns := w.conns[fd := ConnOf(w.conns, fd).(parser := p, held := held)])
  }

  /** A read: refused if it overruns the buffer; else every command it completes is executed,
      and what is left over is kept, or the connection given up. */
  ghost function Serviced(table: CommandTable, w: Wire, e: Event): Wire {
    var conn := ConnOf(w.conns, e.fd);
    if conn.closing then w
    else if |conn.held| + |e.bytes| > Connection.MAX_READ_BUFFER then Hang(w, e.fd, Connection.TooLarge())
    else
      var s := conn.held + e.bytes;
      var d := Drain(conn.parser, s);
      var v := Absorbed(ExecutedAll(table, w, d.commands, e), e.fd, d.parser, s[d.used..]);
      if d.error.Some? then Hang(v, e.fd, Connection.Refusal(d.error.value)) else v
  }

  ghost function ServicedAll(table: CommandTable, w: Wire, es: seq<Event>): Wire {
    if es == [] then w else Serviced(table, ServicedAll(table, w, es[..|es| - 1]), es[|es| - 1])
  }

  function Accepted(w: Wire, e: Event): nat {
    var out := ConnOf(w.conns, e.fd).out;
    if e.accepts < |out| then e.accepts else |out|
  }

  /** As much as the socket takes is sent. */
  function Released(w: Wire, e: Event): Wire {
    var conn, n := ConnOf(w.conns, e.fd), Accepted(w, e);
    if n == 0 then w
    else w.(conns := w.conns[e.fd := conn.(out := conn.out[n..])], sends := w.sends + [Send(e.fd, conn.out[..n])])
  }

  function ReleasedAll(w: Wire, es: seq<Event>): Wire {
    if es == [] then w else Released(ReleasedAll(w, es[..|es| - 1]), es[|es| - 1])
  }

  function Sweeping(t: Tick): Entry {
    Upkeep(Timed(SweepSome(SWEEP_BUDGET), t.sweepAt))
  }

  function Compacting(t: Tick): Entry {
    Upkeep(Timed(Compact, t.compactAt))
  }

  function Kept(w: Wire, t: Tick): Wire {
    w.(log := w.log + [Sweeping(t)] + [Compacting(t)])
  }

  /** One turn: serve everything, release, then the housekeeping. */
  ghost function Turned(table: CommandTable, w: Wire, t: Tick): Wire {
    Kept(ReleasedAll(ServicedAll(table, w, t.events), t.events), t)
  }

  ghost function TurnedAll(table: CommandTable, w: Wire, ts: seq<Tick>): Wire {
    if ts == [] then w else Turned(table, TurnedAll(table, w, ts[..|ts| - 1]), ts[|ts| - 1])
  }

  // ---------------------------------------------------------------- what is true of it

  /** The plain map after everything in the log. */
  ghost function MapAfter(m: Model, log: seq<Entry>): Model {
    if log == [] then m
    else
      var before, last := MapAfter(m, log[..|log| - 1]), log[|log| - 1];
      if last.HungUp? then before else Effect(before, last.step)
  }

  /** A command was answered from the map it found. */
  ghost predicate Truthful(table: CommandTable, m: Model, log: seq<Entry>) {
    forall i :: 0 <= i < |log| && log[i].Served? ==> FromMap(table, MapAfter(m, log[..i]), log[i])
  }

  ghost predicate FromMap(table: CommandTable, m: Model, e: Entry)
    requires e.Served?
  {
    && e.step.step == table.step(e.command, e.step.now)
    && e.reply == table.reply(e.command, Answer(m, e.step))
  }

  /** Every reply owed was sent or is waiting, in order. */
  ghost predicate Balanced(w: Wire) {
    forall fd :: RepliesTo(w.log, fd) == SentTo(w.sends, fd) + ConnOf(w.conns, fd).out
  }

  ghost predicate AllBounded(conns: map<int, Conn>) {
    forall fd :: Bounded(ConnOf(conns, fd).parser)
  }

  ghost predicate Tidy(table: CommandTable, m: Model, w: Wire) {
    w.model == MapAfter(m, w.log) && Truthful(table, m, w.log) && Balanced(w) && AllBounded(w.conns)
  }

  /** `w` with one more entry and what it owes. */
  ghost predicate Owes(w: Wire, e: Entry, v: Wire) {
    && v.log == w.log + [e] && v.sends == w.sends
    && forall fd ::
         && ConnOf(v.conns, fd).out == ConnOf(w.conns, fd).out + Due(e, fd)
         && ConnOf(v.conns, fd).parser == ConnOf(w.conns, fd).parser
  }

  lemma StepsSnoc(log: seq<Entry>, e: Entry)
    ensures Steps(log + [e]) == Steps(log) + StepsIn(e)
  {
    assert (log + [e])[..|log|] == log;
  }

  lemma RepliesSnoc(log: seq<Entry>, e: Entry, fd: int)
    ensures RepliesTo(log + [e], fd) == RepliesTo(log, fd) + Due(e, fd)
  {
    assert (log + [e])[..|log|] == log;
  }

  lemma SentSnoc(sends: seq<Send>, s: Send, fd: int)
    ensures SentTo(sends + [s], fd) == SentTo(sends, fd) + if s.fd == fd then s.bytes else []
  {
    assert (sends + [s])[..|sends|] == sends;
  }

  lemma MapSnoc(m: Model, log: seq<Entry>, e: Entry)
    ensures MapAfter(m, log + [e]) == if e.HungUp? then MapAfter(m, log) else Effect(MapAfter(m, log), e.step)
  {
    assert (log + [e])[..|log|] == log;
  }

  lemma TruthfulSnoc(table: CommandTable, m: Model, log: seq<Entry>, e: Entry)
    requires Truthful(table, m, log) && (e.Served? ==> FromMap(table, MapAfter(m, log), e))
    ensures Truthful(table, m, log + [e])
  {
    hide FromMap, MapAfter;
    var more := log + [e];
    forall i | 0 <= i < |more| && more[i].Served? ensures FromMap(table, MapAfter(m, more[..i]), more[i]) {
      assert more[..i] == log[..i];
      if i == |log| { assert log[..i] == log; }
    }
  }

  /** One more entry, whichever it is. */
  lemma TidyEntry(table: CommandTable, m: Model, w: Wire, e: Entry, v: Wire)
    requires Tidy(table, m, w) && Owes(w, e, v) && (e.Served? ==> FromMap(table, w.model, e))
    requires v.model == if e.HungUp? then w.model else Effect(w.model, e.step)
    ensures Tidy(table, m, v)
  {
    hide FromMap, MapAfter, Truthful, ConnOf, Due, Effect, Bounded, RepliesTo, SentTo;
    MapSnoc(m, w.log, e);
    TruthfulSnoc(table, m, w.log, e);
    forall fd ensures RepliesTo(v.log, fd) == SentTo(v.sends, fd) + ConnOf(v.conns, fd).out {
      RepliesSnoc(w.log, e, fd);
      assert RepliesTo(w.log, fd) == SentTo(w.sends, fd) + ConnOf(w.conns, fd).out;
    }
    forall fd ensures Bounded(ConnOf(v.conns, fd).parser) {
      assert Bounded(ConnOf(w.conns, fd).parser);
    }
  }

  lemma TidyExecuted(table: CommandTable, m: Model, w: Wire, fd: int, c: Command, now: int)
    requires Tidy(table, m, w)
    ensures Tidy(table, m, Executed(table, w, fd, c, now))
  {
    hide Tidy, Answer, Effect;
    var v := Executed(table, w, fd, c, now);
    TidyEntry(table, m, w, v.log[|w.log|], v);
  }

  lemma TidyHang(table: CommandTable, m: Model, w: Wire, fd: int, reply: Bytes)
    requires Tidy(table, m, w)
    ensures Tidy(table, m, Hang(w, fd, reply))
  {
    hide Tidy;
    TidyEntry(table, m, w, HungUp(fd, reply), Hang(w, fd, reply));
  }

  lemma TidyUpkeep(table: CommandTable, m: Model, w: Wire, step: Timed)
    requires Tidy(table, m, w)
    ensures Tidy(table, m, w.(log := w.log + [Upkeep(step)], model := Effect(w.model, step)))
  {
    hide Tidy, Effect;
    TidyEntry(table, m, w, Upkeep(step), w.(log := w.log + [Upkeep(step)], model := Effect(w.model, step)));
  }

  lemma TidyAbsorbed(table: CommandTable, m: Model, w: Wire, fd: int, p: SoundParser, held: Bytes)
    requires Tidy(table, m, w) && Bounded(p)
    ensures Tidy(table, m, Absorbed(w, fd, p, held))
  {
    hide MapAfter, Truthful, Bounded, RepliesTo, SentTo;
    var v := Absorbed(w, fd, p, held);
    forall other ensures ConnOf(v.conns, other).out == ConnOf(w.conns, other).out {}
    forall other ensures RepliesTo(v.log, other) == SentTo(v.sends, other) + ConnOf(v.conns, other).out {
      assert RepliesTo(w.log, other) == SentTo(w.sends, other) + ConnOf(w.conns, other).out;
    }
  }

  lemma TidyReleased(table: CommandTable, m: Model, w: Wire, e: Event)
    requires Tidy(table, m, w)
    ensures Tidy(table, m, Released(w, e))
  {
    hide MapAfter, Truthful, Bounded, RepliesTo, SentTo;
    var v, out, n := Released(w, e), ConnOf(w.conns, e.fd).out, Accepted(w, e);
    if n > 0 {
      assert out[..n] + out[n..] == out;
      forall fd ensures RepliesTo(v.log, fd) == SentTo(v.sends, fd) + ConnOf(v.conns, fd).out {
        SentSnoc(w.sends, Send(e.fd, out[..n]), fd);
        assert RepliesTo(w.log, fd) == SentTo(w.sends, fd) + ConnOf(w.conns, fd).out;
      }
    }
  }

  /** No more is sent than is owed. */
  lemma SentIsOwed(w: Wire, fd: int)
    requires Balanced(w)
    ensures SentTo(w.sends, fd) <= RepliesTo(w.log, fd)
  {
    assert RepliesTo(w.log, fd) == SentTo(w.sends, fd) + ConnOf(w.conns, fd).out;
  }

  // ---------------------------------------------------------------- what can be executed

  /** Clock readings that never go back. */
  ghost predicate InTime(ts: seq<Timed>, clock: int) {
    && (forall i :: 0 <= i < |ts| ==> IsInt64(ts[i].now) && clock <= ts[i].now)
    && (forall i, j :: 0 <= i < j < |ts| ==> ts[i].now <= ts[j].now)
  }

  /** The clock never went back, and there was a table number for every entry. */
  ghost predicate Feasible(log: seq<Entry>, clock: int, first: int) {
    InTime(Steps(log), clock) && first + |log| <= TWO_64
  }

  lemma {:induction false} StepsPrefix(a: seq<Entry>, b: seq<Entry>)
    requires a <= b
    ensures Steps(a) <= Steps(b)
    decreases |b|
  {
    if |a| < |b| {
      StepsPrefix(a, b[..|b| - 1]);
    } else {
      assert a == b;
    }
  }

  lemma FeasiblePrefix(a: seq<Entry>, b: seq<Entry>, clock: int, first: int)
    requires a <= b && Feasible(b, clock, first)
    ensures Feasible(a, clock, first)
  {
    hide Steps;
    StepsPrefix(a, b);
    assert forall i :: 0 <= i < |Steps(a)| ==> Steps(a)[i] == Steps(b)[i];
  }

  /** The next step can be taken. */
  lemma FeasibleNext(log: seq<Entry>, e: Entry, clock: int, first: int)
    requires !e.HungUp? && Feasible(log + [e], clock, first) && Runnable(Steps(log), clock)
    requires Sendable(e.step.step)
    ensures IsInt64(e.step.now) && EndOf(Steps(log), clock) <= e.step.now && first + |log| < TWO_64
    ensures Runnable(Steps(log + [e]), clock) && EndOf(Steps(log + [e]), clock) == e.step.now
  {
    hide Steps, Sendable;
    StepsSnoc(log, e);
    var ts, t := Steps(log), e.step;
    assert (ts + [t])[|ts|] == t;
    forall i | 0 <= i < |ts| ensures ts[i].now <= t.now {
      assert (ts + [t])[i] == ts[i];
    }
  }

  lemma AfterAllSnoc(m: Model, ts: seq<Timed>, t: Timed, clock: int)
    requires Runnable(ts + [t], clock)
    ensures Runnable(ts, clock) && Sendable(t.step) && IsInt64(t.now)
    ensures AfterAll(m, ts + [t]) == After(AfterAll(m, ts), t)
  {
    hide After;
    RunnableNext(ts, t, clock);
    assert (ts + [t])[..|ts|] == ts;
  }

  lemma {:induction false} MapAfterIsAfterAll(m: Model, log: seq<Entry>, clock: int)
    requires Runnable(Steps(log), clock)
    ensures MapAfter(m, log) == AfterAll(m, Steps(log))
    decreases |log|
  {
    hide After, Sendable, AfterAll, Steps, Runnable;
    if log == [] {
      NoSteps(m);
    } else {
      var init, last := log[..|log| - 1], log[|log| - 1];
      assert log == init + [last];
      StepsSnoc(init, last);
      if last.HungUp? {
        assert Steps(log) == Steps(init);
      } else {
        AfterAllSnoc(m, Steps(init), last.step, clock);
      }
      MapAfterIsAfterAll(m, init, clock);
    }
  }

  lemma NoSteps(m: Model)
    ensures Steps([]) == [] && AfterAll(m, []) == m
  {
  }

  // ---------------------------------------------------------------- what clients were told

  /** The results of the steps, in order. */
  ghost function ResultsOf(m: Model, log: seq<Entry>): seq<Result> {
    if log == [] then []
    else
      var before, last := log[..|log| - 1], log[|log| - 1];
      ResultsOf(m, before) + if last.HungUp? then [] else [Answer(MapAfter(m, before), last.step)]
  }

  /** Every reply to a client is the command table's rendering of its step's result. */
  ghost predicate Carries(table: CommandTable, log: seq<Entry>, results: seq<Result>) {
    && |results| == |Steps(log)|
    && forall i :: 0 <= i < |log| && log[i].Served? ==> CarriesAt(table, log, results, i)
  }

  ghost predicate CarriesAt(table: CommandTable, log: seq<Entry>, results: seq<Result>, i: nat)
    requires i < |log| && log[i].Served?
  {
    var e, k := log[i], |Steps(log[..i])|;
    && k < |results| == |Steps(log)| && Steps(log)[k] == e.step
    && e.step.step == table.step(e.command, e.step.now) && e.reply == table.reply(e.command, results[k])
  }

  lemma ResultsSnoc(m: Model, log: seq<Entry>, e: Entry)
    ensures ResultsOf(m, log + [e]) == ResultsOf(m, log) + if e.HungUp? then [] else [Answer(MapAfter(m, log), e.step)]
  {
    assert (log + [e])[..|log|] == log;
  }

  lemma {:induction false} ResultsAnswered(m: Model, log: seq<Entry>, clock: int)
    requires Runnable(Steps(log), clock)
    ensures Answered(ResultsOf(m, log), m, Steps(log), clock)
    decreases |log|
  {
    hide Answer, AfterAll, MapAfter, Answered, Steps, Runnable;
    if log == [] {
      NoSteps(m);
      NoAnswers(m, clock);
    } else {
      var before, last := log[..|log| - 1], log[|log| - 1];
      assert log == before + [last];
      StepsSnoc(before, last);
      ResultsSnoc(m, before, last);
      if last.HungUp? {
        assert Steps(log) == Steps(before) && ResultsOf(m, log) == ResultsOf(m, before);
        ResultsAnswered(m, before, clock);
      } else {
        RunnableNext(Steps(before), last.step, clock);
        ResultsAnswered(m, before, clock);
        MapAfterIsAfterAll(m, before, clock);
        AnsweredMore(ResultsOf(m, before), m, Steps(before), clock, last.step, Answer(MapAfter(m, before), last.step));
      }
    }
  }

  lemma NoAnswers(m: Model, clock: int)
    ensures Runnable([], clock) && Answered([], m, [], clock)
  {
  }

  lemma {:induction false} ResultsLength(m: Model, log: seq<Entry>)
    ensures |ResultsOf(m, log)| == |Steps(log)|
    decreases |log|
  {
    hide Answer, MapAfter;
    if log != [] { ResultsLength(m, log[..|log| - 1]); }
  }

  lemma {:induction false} ResultsPrefix(m: Model, log: seq<Entry>, i: nat)
    requires i < |log| && !log[i].HungUp?
    ensures |ResultsOf(m, log)| == |Steps(log)| && |Steps(log[..i])| < |Steps(log)|
    ensures var k := |Steps(log[..i])|;
      Steps(log)[k] == log[i].step && ResultsOf(m, log)[k] == Answer(MapAfter(m, log[..i]), log[i].step)
    decreases |log|
  {
    hide Answer, MapAfter, Steps, ResultsOf;
    var n := |log| - 1;
    var before, last := log[..n], log[n];
    assert log == before + [last];
    StepsSnoc(before, last);
    ResultsSnoc(m, before, last);
    ResultsLength(m, before);
    if i < n {
      ResultsPrefix(m, before, i);
      assert before[..i] == log[..i];
    }
  }

  /** A truthful log carries true results. */
  lemma TruthfulCarries(table: CommandTable, m: Model, log: seq<Entry>, clock: int)
    requires Truthful(table, m, log) && Runnable(Steps(log), clock)
    ensures Carries(table, log, ResultsOf(m, log)) && Truth(m, Steps(log), ResultsOf(m, log))
    ensures LastWriteWins(m, Steps(log), ResultsOf(m, log))
  {
    hide Truth, LastWriteWins, Runnable, MapAfter, Steps, ResultsOf, Answer;
    ResultsAnswered(m, log, clock);
    AnsweredIsTruth(m, Steps(log), clock, ResultsOf(m, log));
    TruthIsLast(m, Steps(log), clock, ResultsOf(m, log));
    forall i | 0 <= i < |log| && log[i].Served? ensures CarriesAt(table, log, ResultsOf(m, log), i) {
      ResultsPrefix(m, log, i);
      assert FromMap(table, MapAfter(m, log[..i]), log[i]);
    }
  }

  // ---------------------------------------------------------------- prefixes of the traffic

  lemma {:induction false} ExecutedAllGrows(table: CommandTable, w: Wire, cs: seq<Command>, e: Event, i: nat)
    requires i <= |cs|
    ensures ExecutedAll(table, w, cs[..i], e).log <= ExecutedAll(table, w, cs, e).log
    decreases |cs|
  {
    hide Answer, Effect;
    if i < |cs| {
      ExecutedAllGrows(table, w, cs[..|cs| - 1], e, i);
      assert cs[..|cs| - 1][..i] == cs[..i];
    } else {
      assert cs[..i] == cs;
    }
  }

  lemma ExecutedAllNext(table: CommandTable, w: Wire, cs: seq<Command>, e: Event, i: nat)
    requires i < |cs|
    ensures ExecutedAll(table, w, cs[..i + 1], e) ==
      Executed(table, ExecutedAll(table, w, cs[..i], e), e.fd, cs[i], Reading(e, i))
  {
    hide Executed;
    assert cs[..i + 1][..i] == cs[..i];
  }

  /** What the commands of a read do is not taken back. */
  lemma ServicedGrows(table: CommandTable, w: Wire, e: Event)
    ensures w.log <= Serviced(table, w, e).log
    ensures var conn := ConnOf(w.conns, e.fd); var s := conn.held + e.bytes;
      !conn.closing && |s| <= Connection.MAX_READ_BUFFER ==>
        ExecutedAll(table, w, Drain(conn.parser, s).commands, e).log <= Serviced(table, w, e).log
  {
    hide Drain, Executed;
    var conn := ConnOf(w.conns, e.fd);
    var cs := Drain(conn.parser, conn.held + e.bytes).commands;
    ExecutedAllGrows(table, w, cs, e, 0);
    assert cs[..0] == [];
  }

  lemma {:induction false} ServicedAllGrows(table: CommandTable, w: Wire, es: seq<Event>, i: nat)
    requires i <= |es|
    ensures ServicedAll(table, w, es[..i]).log <= ServicedAll(table, w, es).log
    decreases |es|
  {
    hide Serviced;
    if i < |es| {
      var init := es[..|es| - 1];
      ServicedAllGrows(table, w, init, i);
      assert init[..i] == es[..i];
      ServicedGrows(table, ServicedAll(table, w, init), es[|es| - 1]);
    } else {
      assert es[..i] == es;
    }
  }

  lemma ServicedAllNext(table: CommandTable, w: Wire, es: seq<Event>, i: nat)
    requires i < |es|
    ensures ServicedAll(table, w, es[..i + 1]) == Serviced(table, ServicedAll(table, w, es[..i]), es[i])
  {
    hide Serviced;
    assert es[..i + 1][..i] == es[..i];
  }

  lemma {:induction false} ReleasedAllLog(w: Wire, es: seq<Event>)
    ensures ReleasedAll(w, es).log == w.log
  {
    if es != [] { ReleasedAllLog(w, es[..|es| - 1]); }
  }

  lemma TurnGrows(table: CommandTable, w: Wire, t: Tick)
    ensures w.log <= ServicedAll(table, w, t.events).log <= Turned(table, w, t).log
    ensures ReleasedAll(ServicedAll(table, w, t.events), t.events).log == ServicedAll(table, w, t.events).log
  {
    hide Serviced, Released;
    ServicedAllGrows(table, w, t.events, 0);
    assert t.events[..0] == [];
    ReleasedAllLog(ServicedAll(table, w, t.events), t.events);
  }

  lemma {:induction false} TurnedAllGrows(table: CommandTable, w: Wire, ts: seq<Tick>, i: nat)
    requires i <= |ts|
    ensures TurnedAll(table, w, ts[..i]).log <= TurnedAll(table, w, ts).log
    decreases |ts|
  {
    hide Turned;
    if i < |ts| {
      var init := ts[..|ts| - 1];
      TurnedAllGrows(table, w, init, i);
      assert init[..i] == ts[..i];
      TurnGrows(table, TurnedAll(table, w, init), ts[|ts| - 1]);
    } else {
      assert ts[..i] == ts;
    }
  }

  lemma TurnedAllNext(table: CommandTable, w: Wire, ts: seq<Tick>, i: nat)
    requires i < |ts|
    ensures TurnedAll(table, w, ts[..i + 1]) == Turned(table, TurnedAll(table, w, ts[..i]), ts[i])
  {
    hide Turned;
    assert ts[..i + 1][..i] == ts[..i];
  }
}
