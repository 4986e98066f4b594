/** Group commit: every ready connection is served, one fsync covers all of it, and only
    then does any reply leave. */
module Server {
  import opened ByteStrings
  import opened FileNames
  import opened FileSystem
  import opened StoreModel
  import opened Exposure
  import opened StoreRecovery
  import opened Engine
  import opened Store
  import opened StoreSteps
  import opened RunModel
  import opened StoreRun
  import opened Memtable
  import opened TierWalk
  import opened Resp
  import opened RespLimits
  import opened Traffic
  import opened Streams
  import opened Delivery
  import opened KeyHistory
  import Connection

  // ---------------------------------------------------------------- losing power

  /** A disk that losing power may leave: what was synced is there, what was not may be
      anything. */
  ghost predicate PowerLoss(now: Stage, d: Disk) {
    forall name :: name !in now.dirtyNames ==>
      && (name in d <==> name in now.disk)
      && (name in d && name !in now.dirtyData ==> d[name] == now.disk[name])
  }

  ghost predicate Dirty(now: Stage, name: string) {
    name in now.dirtyNames || name in now.dirtyData
  }

  /** Everything a restart looks at is synced. */
  ghost predicate Settled(now: Stage) {
    forall name :: Recoverable(name) ==> !Dirty(now, name)
  }

  /** What was not synced happens to be on the disk all the same. */
  ghost predicate Lucky(now: Stage, d: Disk) {
    forall name :: Recoverable(name) && Dirty(now, name) ==> SameFile(now.disk, d, name)
  }

  /** Then losing power is no worse than a crash. */
  lemma PowerLossHarmless(now: Stage, d: Disk, ts: seq<Numbered>, m: Model, clock: int)
    requires PowerLoss(now, d) && Lucky(now, d) && RecoversWith(now.disk, ts, m, clock)
    ensures Recovers(d, m, clock)
  {
    hide RecoversWith, SequenceOf;
    OtherNames();
    assert Recoverable(WAL);
    forall name | SequenceOf(name).Some?
      ensures (name in now.disk <==> name in d) && (name in now.disk ==> now.disk[name] == d[name])
    {
      assert Recoverable(name);
    }
    RecoversSame(now.disk, d, ts, m, clock);
    RecoversIntro(d, ts, m, clock);
  }

  // ---------------------------------------------------------------- acknowledgements

  /** Bytes that went out, and how far the directory's trace had got by then. */
  datatype Written = Written(send: Send, at: nat)

  /** The clients' ends of the connections, and whatever passes on the bytes. */
  class Sockets {
    const dir: Directory
    ghost var written: seq<Written>

    constructor (d: Directory)
      ensures dir == d && written == []
    {
      dir, written := d, [];
    }

    method Write(fd: int, bytes: Bytes)
      modifies this
      ensures written == old(written) + [Written(Send(fd, bytes), |dir.trace|)]
    {
      written := written + [Written(Send(fd, bytes), |dir.trace|)];
    }
  }

  function SendsOf(written: seq<Written>): (sends: seq<Send>)
    ensures |sends| == |written| && forall i :: 0 <= i < |written| ==> sends[i] == written[i].send
  {
    seq(|written|, i requires 0 <= i < |written| => written[i].send)
  }

  /** What a write of reply bytes acknowledges: how much the loop had done by then, and what
      that had made of the store. */
  datatype Ack = Ack(done: nat, tables: seq<Numbered>, model: Model, clock: int)

  /** Nothing a restart would look at is unsynced, except what was so before the loop began
      and has not been touched since; and no name is, once the directory has been synced. */
  ghost predicate Durable(began: Stage, now: Stage, ack: Ack) {
    && RecoversWith(now.disk, ack.tables, ack.model, ack.clock)
    && (forall name :: Recoverable(name) && name in now.dirtyData ==>
          name in began.dirtyData && SameFile(began.disk, now.disk, name))
    && (forall name :: Recoverable(name) && name in now.dirtyNames ==>
          name in began.dirtyNames && now.dirSyncs == began.dirSyncs)
  }

  /** The acknowledged map is the map after everything done by then. */
  ghost predicate Accounted(start: Model, clock: int, log: seq<Entry>, ack: Ack) {
    && ack.done <= |log|
    && ack.model == MapAfter(start, log[..ack.done]) && ack.clock == EndOf(Steps(log[..ack.done]), clock)
  }

  /** Nobody has been sent anything but replies to that. */
  ghost predicate Replied(log: seq<Entry>, written: seq<Written>, ack: Ack) {
    ack.done <= |log| && forall fd :: SentTo(SendsOf(written), fd) <= RepliesTo(log[..ack.done], fd)
  }

  /** The bytes left while the directory was as the trace says, and then it was durable. */
  ghost predicate Sealed(began: State, trace: seq<Stage>, at: nat, ack: Ack) {
    && |began.trace| <= at <= |trace| && 0 < at
    && Durable(StageOf(began), trace[at - 1], ack)
  }

  /** Every write there has been is acknowledged. */
  ghost predicate Ledger(start: Model, clock: int, began: State, trace: seq<Stage>, log: seq<Entry>,
                         written: seq<Written>, acks: seq<Ack>) {
    && |acks| == |written|
    && (forall i, j :: 0 <= i < j < |written| ==> written[i].at <= written[j].at)
    && (forall i :: 0 <= i < |acks| ==>
          && Accounted(start, clock, log, acks[i]) && Replied(log, written[..i + 1], acks[i])
          && Sealed(began, trace, written[i].at, acks[i]))
  }

  lemma LedgerGrows(start: Model, clock: int, began: State, trace: seq<Stage>, log: seq<Entry>,
                    written: seq<Written>, acks: seq<Ack>, later: seq<Stage>, more: seq<Entry>)
    requires Ledger(start, clock, began, trace, log, written, acks) && trace <= later && log <= more
    ensures Ledger(start, clock, began, later, more, written, acks)
  {
    hide MapAfter, EndOf, Steps, SentTo, RepliesTo, Durable;
    forall i | 0 <= i < |acks|
      ensures Accounted(start, clock, more, acks[i]) && Replied(more, written[..i + 1], acks[i])
      ensures Sealed(began, later, written[i].at, acks[i])
    {
      assert more[..acks[i].done] == log[..acks[i].done];
    }
  }

  /** The books of a loop that started from `start`. */
  ghost predicate Books(table: CommandTable, start: Model, clock: int, w: Wire, now: int) {
    Tidy(table, start, w) && Runnable(Steps(w.log), clock) && now == EndOf(Steps(w.log), clock)
  }

  lemma Opening(table: CommandTable, start: Model, clock: int, began: State)
    ensures Books(table, start, clock, Wire([], start, map[], []), clock)
    ensures Ledger(start, clock, began, began.trace, [], [], [])
  {
  }

  /** One more write, of bytes that were owed. */
  lemma LedgerSend(table: CommandTable, start: Model, clock: int, began: State, trace: seq<Stage>, w: Wire,
                   written: seq<Written>, acks: seq<Ack>, e: Event, ack: Ack, now: int)
    requires Books(table, start, clock, w, now) && Accepted(w, e) > 0 && w.sends == SendsOf(written)
    requires Ledger(start, clock, began, trace, w.log, written, acks)
    requires ack.done == |w.log| && ack.model == w.model && ack.clock == now
    requires Sealed(began, trace, |trace|, ack)
    ensures var out := ConnOf(w.conns, e.fd).out[..Accepted(w, e)];
      var more := written + [Written(Send(e.fd, out), |trace|)];
      && Released(w, e).sends == SendsOf(more) && Books(table, start, clock, Released(w, e), now)
      && Ledger(start, clock, began, trace, w.log, more, acks + [ack])
  {
    hide MapAfter, EndOf, Steps, SentTo, RepliesTo, Durable, Tidy, ConnOf, Runnable;
    var v, out := Released(w, e), ConnOf(w.conns, e.fd).out[..Accepted(w, e)];
    var more, all := written + [Written(Send(e.fd, out), |trace|)], acks + [ack];
    assert SendsOf(more) == SendsOf(written) + [Send(e.fd, out)];
    TidyReleased(table, start, w, e);
    assert w.log[..|w.log|] == w.log;
    forall fd ensures SentTo(v.sends, fd) <= RepliesTo(v.log, fd) {
      TidyBalanced(table, start, v);
      SentIsOwed(v, fd);
    }
    TidyModel(table, start, w);
    forall i | 0 <= i < |all|
      ensures Accounted(start, clock, w.log, all[i]) && Replied(w.log, more[..i + 1], all[i])
      ensures Sealed(began, trace, more[i].at, all[i])
    {
      if i < |acks| {
        assert more[..i + 1] == written[..i + 1];
      } else {
        assert more[..i + 1] == more;
      }
    }
  }

  lemma TidyBalanced(table: CommandTable, m: Model, w: Wire)
    requires Tidy(table, m, w)
    ensures Balanced(w)
  {
  }

  lemma TidyModel(table: CommandTable, m: Model, w: Wire)
    requires Tidy(table, m, w)
    ensures w.model == MapAfter(m, w.log)
  {
  }

  /** With nothing unsynced since the log was opened, the bytes about to leave are durable. */
  lemma SyncedIsDurable(began: State, st: State, ack: Ack, found: Bytes, inherited: bool)
    requires Follows(began, st) && Traced(st) && |began.trace| > 0
    requires WAL in st.dirtyData ==> inherited && WAL in st.files && st.files[WAL] == found
    requires inherited ==> WAL in began.dirtyData && WAL in began.files && began.files[WAL] == found
    requires RecoversWith(st.files, ack.tables, ack.model, ack.clock)
    ensures Sealed(began, st.trace, |st.trace|, ack)
  {
    hide RecoversWith, SequenceOf;
  }

  lemma BooksServed(table: CommandTable, start: Model, clock: int, w: Wire, now: int, first: int, fd: int, c: Command,
                    at: int)
    requires Books(table, start, clock, w, now) && Sane(table) && AllShort(c)
    requires Feasible(Executed(table, w, fd, c, at).log, clock, first)
    ensures IsInt64(at) && now <= at && Sendable(table.step(c, at)) && first + |w.log| < TWO_64
    ensures Books(table, start, clock, Executed(table, w, fd, c, at), at)
  {
    hide Tidy, Steps, Runnable, Sendable, Answer, Effect, EndOf, ConnOf, AllShort;
    var e := Executed(table, w, fd, c, at).log[|w.log|];
    TimeOf(w.log, e, clock, first);
    FeasibleNext(w.log, e, clock, first);
    TidyExecuted(table, start, w, fd, c, at);
  }

  lemma TimeOf(log: seq<Entry>, e: Entry, clock: int, first: int)
    requires !e.HungUp? && Feasible(log + [e], clock, first)
    ensures IsInt64(e.step.now)
  {
    hide Steps;
    StepsSnoc(log, e);
    assert (Steps(log) + [e.step])[|Steps(log)|] == e.step;
  }

  lemma BooksUpkeep(table: CommandTable, start: Model, clock: int, w: Wire, now: int, first: int, step: Timed)
    requires Books(table, start, clock, w, now) && Sendable(step.step)
    requires Feasible(w.log + [Upkeep(step)], clock, first)
    ensures IsInt64(step.now) && now <= step.now && first + |w.log| < TWO_64
    ensures Books(table, start, clock, w.(log := w.log + [Upkeep(step)], model := Effect(w.model, step)), step.now)
  {
    hide Tidy, Steps, Runnable, Sendable, Effect, EndOf;
    FeasibleNext(w.log, Upkeep(step), clock, first);
    TidyUpkeep(table, start, w, step);
  }

  lemma BooksHang(table: CommandTable, start: Model, clock: int, w: Wire, now: int, fd: int, reply: Bytes)
    requires Books(table, start, clock, w, now)
    ensures Books(table, start, clock, Hang(w, fd, reply), now)
  {
    hide Tidy, Steps, Runnable, EndOf, ConnOf;
    StepsSnoc(w.log, HungUp(fd, reply));
    assert Steps(w.log) + [] == Steps(w.log);
    TidyHang(table, start, w, fd, reply);
  }

  lemma BooksAbsorbed(table: CommandTable, start: Model, clock: int, w: Wire, now: int, fd: int, p: SoundParser,
                      held: Bytes)
    requires Books(table, start, clock, w, now) && Bounded(p)
    ensures Books(table, start, clock, Absorbed(w, fd, p, held), now)
  {
    hide Tidy, Steps, Runnable, EndOf, ConnOf;
    TidyAbsorbed(table, start, w, fd, p, held);
  }

  lemma NothingDelivered(log: seq<Entry>, sends: seq<Send>, marks: seq<nat>)
    requires |marks| == 1
    ensures Delivers(log, sends, [], Round(|log|, marks))
  {
  }

  /** The turn is over: the replies left, and then the housekeeping was done. */
  lemma RoundOver(entries: nat, served: seq<Entry>, before: seq<Send>, sends: seq<Send>, t: Tick, marks: seq<nat>,
                  log: seq<Entry>)
    requires entries <= |served| && before <= sends && log == served + [Sweeping(t)] + [Compacting(t)]
    requires Delivers(served, sends, t.events, Round(|served|, marks))
    requires marks[0] == |before| && marks[|t.events|] == |sends|
    ensures |marks| == |t.events| + 1
    ensures RoundDone(log, sends, t, Round(|served|, marks), entries, |before|)
    ensures Roomy(log, before, t.events) ==> CaughtUp(log, sends, t.events)
  {
    hide Delivers, Roomy, CaughtUp;
    var round := Round(|served|, marks);
    DeliversMarks(served, sends, t.events, round);
    DeliversMore(served, sends, t.events, round, log, sends);
    if Roomy(log, before, t.events) { TurnCaughtUp(log, sends, t, round, before); }
  }

  lemma BooksDeliver(table: CommandTable, start: Model, clock: int, w: Wire, now: int, e: Event)
    requires Books(table, start, clock, w, now)
    ensures DeliversOne(w.log, Released(w, e).sends, e, |w.sends|, |Released(w, e).sends|)
  {
    hide DeliversOne, Released, Runnable, Tidy;
    TidyBalanced(table, start, w);
    ReleasedDelivers(w, e);
  }

  lemma BooksBounded(table: CommandTable, start: Model, clock: int, w: Wire, now: int, fd: int)
    requires Books(table, start, clock, w, now)
    ensures Bounded(ConnOf(w.conns, fd).parser)
  {
    hide MapAfter, Truthful, Balanced, Runnable, Bounded, ConnOf;
  }

  // ---------------------------------------------------------------- the event loop

  class Loop {
    const store: Store
    const table: CommandTable
    const sockets: Sockets
    var conns: map<int, Conn>

    ghost const began: State       // the directory, the map and the rest when the loop was entered
    ghost const start: Model
    ghost const startClock: int
    ghost const first: nat
    ghost var log: seq<Entry>      // everything done since
    ghost var acks: seq<Ack>       // one for every write to a socket

    ghost function W(): Wire
      reads this, store, sockets
    {
      Wire(log, store.model, conns, SendsOf(sockets.written))
    }

    ghost predicate Valid()
      reads this, sockets, store, store.dir, store.memtable, store.wal
    {
      && store.Valid() && sockets.dir == store.dir && Sane(table)
      && Follows(began, store.dir.Now()) && began.trace != [] && Traced(store.dir.Now())
      && |acks| == |sockets.written|
      && (store.wal.inherited ==> WAL in began.dirtyData && WAL in began.files && began.files[WAL] == store.wal.found)
      && Books(table, start, startClock, W(), store.clock) && store.nextSequence <= first + |log|
      && Ledger(start, startClock, began, store.dir.trace, log, sockets.written, acks)
    }

    constructor (s: Store, t: CommandTable, net: Sockets)
      requires s.Valid() && s.wal.bytesSinceSync == 0 && (s.wal.inherited ==> WAL in s.dir.dirtyData)
      requires Traced(s.dir.Now()) && Sane(t) && net.dir == s.dir && net.written == []
      ensures Valid() && store == s && table == t && sockets == net && log == [] && acks == [] && conns == map[]
      ensures began == s.dir.Now() && start == s.model && startClock == s.clock && first == s.nextSequence
    {
      store, table, sockets, conns := s, t, net, map[];
      began, start, startClock, first := s.dir.Now(), s.model, s.clock, s.nextSequence;
      log, acks := [], [];
      new;
      hide Consistent, OpenTables, Books, Ledger, Follows, Sane;
      Still(began);
      assert SendsOf([]) == [];
      Opening(table, start, startClock, began);
    }

    /** One command executed and its reply queued. */
    method Execute(fd: int, command: Command, now: int)
      requires Valid() && AllShort(command) && Feasible(Executed(table, W(), fd, command, now).log, startClock, first)
      modifies this`conns, this`log, store, store.dir, store.memtable, store.wal
      ensures Valid() && acks == old(acks) && W() == Executed(table, old(W()), fd, command, now)
      ensures Room(old(store.memtable.bytes), store.options, table.step(command, now)) ==>
        store.dir.dirSyncs == old(store.dir.dirSyncs) && store.tables == old(store.tables)
    {
      hide Consistent, OpenTables, Follows, Books, Ledger, StepSafe, After, Feasible, Room, ConnOf, Sane, AllShort,
        Traced, Recorded;
      ghost var a, w := store.dir.Now(), W();
      BooksServed(table, start, startClock, w, store.clock, first, fd, command, now);
      var t := Timed(table.step(command, now), now);
      var found := Take(store, t);
      var reply := table.reply(command, found);
      var conn := ConnOf(conns, fd);
      conns := conns[fd := conn.(out := conn.out + reply)];
      log := log + [Served(t, fd, command, reply)];
      Onwards(a, w.log);
    }

    /** The directory and the log have grown, and nothing was sent. */
    lemma Onwards(a: State, before: seq<Entry>)
      requires Follows(began, a) && Traced(a) && Follows(a, store.dir.Now()) && before <= log
      requires Ledger(start, startClock, began, a.trace, before, sockets.written, acks)
      ensures Follows(began, store.dir.Now()) && Traced(store.dir.Now())
      ensures Ledger(start, startClock, began, store.dir.trace, log, sockets.written, acks)
    {
      hide Ledger, DirtKept, NamesSettled;
      FollowsTransitive(began, a, store.dir.Now());
      LedgerGrows(start, startClock, began, a.trace, before, sockets.written, acks, store.dir.trace, log);
    }

    /** Read and execute; the replies stay in the buffer. */
    method Service(e: Event)
      requires Valid() && Feasible(Serviced(table, W(), e).log, startClock, first)
      modifies this`conns, this`log, store, store.dir, store.memtable, store.wal
      ensures Valid() && acks == old(acks) && W() == Serviced(table, old(W()), e)
    {
      hide Consistent, OpenTables, Follows, Books, Ledger, Sane, Traced, Feasible, Drain, Executed, ExecutedAll, ConnOf;
      ghost var w := W();
      var conn := ConnOf(conns, e.fd);
      if conn.closing { return; }
      if |conn.held| + |e.bytes| > Connection.MAX_READ_BUFFER {
        HangUp(e.fd, Connection.TooLarge());
        return;
      }
      var s := conn.held + e.bytes;
      var d := Drain(conn.parser, s);
      BooksBounded(table, start, startClock, w, store.clock, e.fd);
      DrainBounded(conn.parser, s);
      ServicedGrows(table, w, e);
      FeasiblePrefix(ExecutedAll(table, w, d.commands, e).log, Serviced(table, w, e).log, startClock, first);
      ExecuteAll(d.commands, e);
      Absorb(e.fd, d.parser, s[d.used..]);
      if d.error.Some? { HangUp(e.fd, Connection.Refusal(d.error.value)); }
    }

    method ExecuteAll(commands: seq<Command>, e: Event)
      requires Valid() && forall i :: 0 <= i < |commands| ==> AllShort(commands[i])
      requires Feasible(ExecutedAll(table, W(), commands, e).log, startClock, first)
      modifies this`conns, this`log, store, store.dir, store.memtable, store.wal
      ensures Valid() && acks == old(acks) && W() == ExecutedAll(table, old(W()), commands, e)
    {
      hide Consistent, OpenTables, Follows, Books, Ledger, Sane, Traced, Feasible, Executed, AllShort, Reading;
      ghost var w := W();
      assert commands[..0] == [];
      for i := 0 to |commands|
        invariant Valid() && acks == old(acks) && W() == ExecutedAll(table, w, commands[..i], e)
      {
        ExecutedAllNext(table, w, commands, e, i);
        ExecutedAllGrows(table, w, commands, e, i + 1);
        FeasiblePrefix(ExecutedAll(table, w, commands[..i + 1], e).log, ExecutedAll(table, w, commands, e).log,
                       startClock, first);
        Execute(e.fd, commands[i], Reading(e, i));
      }
      assert commands[..|commands|] == commands;
    }

    method Absorb(fd: int, p: SoundParser, held: Bytes)
      requires Valid() && Bounded(p)
      modifies this`conns
      ensures Valid() && W() == Absorbed(old(W()), fd, p, held)
    {
      hide Consistent, OpenTables, Follows, Books, Ledger, Sane, Traced, ConnOf, Bounded;
      BooksAbsorbed(table, start, startClock, W(), store.clock, fd, p, held);
      conns := conns[fd := ConnOf(conns, fd).(parser := p, held := held)];
    }

    /** The reason is queued, and nothing more is read. */
    method HangUp(fd: int, reply: Bytes)
      requires Valid()
      modifies this`conns, this`log
      ensures Valid() && W() == Hang(old(W()), fd, reply)
    {
      hide Consistent, OpenTables, Follows, Books, Ledger, Sane, Traced, ConnOf;
      BooksHang(table, start, startClock, W(), store.clock, fd, reply);
      var conn := ConnOf(conns, fd);
      conns := conns[fd := conn.(closing := true, out := conn.out + reply)];
      log := log + [HungUp(fd, reply)];
      LedgerGrows(start, startClock, began, store.dir.trace, old(log), sockets.written, acks, store.dir.trace, log);
    }

    /** Write as much as the socket takes. This is the only place bytes leave, and each time
        they do, nothing this process has logged is unsynced. */
    method Release(e: Event)
      requires Valid() && store.wal.bytesSinceSync == 0
      modifies this`conns, this`acks, sockets
      ensures Valid() && old(acks) <= acks && old(sockets.written) <= sockets.written
      ensures W() == Released(old(W()), e)
      ensures forall i :: |old(acks)| <= i < |acks| ==>
        && sockets.written[i].at == |store.dir.trace|
        && acks[i] == Ack(|log|, store.tables, store.model, store.clock)
      ensures DeliversOne(log, SendsOf(sockets.written), e, |old(sockets.written)|, |sockets.written|)
    {
      hide Consistent, OpenTables, Books, Follows, Ledger, Sealed, Sane, Traced, ConnOf, DeliversOne;
      ghost var w := W();
      BooksDeliver(table, start, startClock, w, store.clock, e);
      var conn := ConnOf(conns, e.fd);
      var n := if e.accepts < |conn.out| then e.accepts else |conn.out|;
      if n == 0 { return; }
      ghost var ack := Ack(|log|, store.tables, store.model, store.clock);
      ConsistentRecovers(store.E());
      SyncedIsDurable(began, store.dir.Now(), ack, store.wal.found, store.wal.inherited);
      LedgerSend(table, start, startClock, began, store.dir.trace, w, sockets.written, acks, e, ack, store.clock);
      sockets.Write(e.fd, conn.out[..n]);
      conns := conns[e.fd := conn.(out := conn.out[n..])];
      acks := acks + [ack];
    }

    method ReleaseAll(es: seq<Event>) returns (ghost marks: seq<nat>)
      requires Valid() && store.wal.bytesSinceSync == 0
      modifies this`conns, this`acks, sockets
      ensures Valid() && old(acks) <= acks && old(sockets.written) <= sockets.written
      ensures W() == ReleasedAll(old(W()), es)
      ensures Delivers(log, SendsOf(sockets.written), es, Round(|log|, marks))
      ensures marks[0] == |old(sockets.written)| && marks[|es|] == |sockets.written|
    {
      hide Consistent, OpenTables, Follows, Books, Ledger, Sane, Traced, Released, Delivers, DeliversOne;
      assert es[..0] == [];
      marks := [|sockets.written|];
      NothingDelivered(log, SendsOf(sockets.written), marks);
      for i := 0 to |es|
        invariant Valid() && old(acks) <= acks && old(sockets.written) <= sockets.written
        invariant W() == ReleasedAll(old(W()), es[..i])
        invariant |marks| == i + 1 && marks[0] == |old(sockets.written)| && marks[i] == |sockets.written|
        invariant Delivers(log, SendsOf(sockets.written), es[..i], Round(|log|, marks))
      {
        assert es[..i + 1][..i] == es[..i] && es[..i + 1] == es[..i] + [es[i]];
        ghost var before := SendsOf(sockets.written);
        Release(es[i]);
        DeliversNext(log, before, es[..i], marks, es[i], SendsOf(sockets.written));
        marks := marks + [|sockets.written|];
      }
      assert es[..|es|] == es;
    }

    method SyncLog()
      requires Valid()
      modifies store.dir, store.wal
      ensures Valid() && store.wal.bytesSinceSync == 0 && !store.wal.inherited && WAL !in store.dir.dirtyData
      ensures store.E() == old(store.E()) && store.dir.dirSyncs == old(store.dir.dirSyncs)
    {
      hide Consistent, OpenTables, Follows, Books, Ledger, Sane, Traced, Traces;
      ghost var a := store.dir.Now();
      store.wal.Sync();
      FollowsSync(a, store.dir.Now());
      Onwards(a, log);
    }

    /** One turn of the loop: serve everything, sync once, release, then the housekeeping. By
        the time replies leave, every read of the turn has been executed; each event then lets
        its client have as much as the socket takes of what it is owed. */
    method Turn(t: Tick) returns (ghost round: Round)
      requires Valid() && Feasible(Turned(table, W(), t).log, startClock, first)
      modifies this, sockets, store, store.dir, store.memtable, store.wal
      ensures Valid() && old(acks) <= acks && old(sockets.written) <= sockets.written && old(log) <= log
      ensures W() == Turned(table, old(W()), t)
      ensures RoundDone(log, SendsOf(sockets.written), t, round, |old(log)|, |old(sockets.written)|)
      ensures |log| == round.served + 2 && round.marks[|t.events|] == |sockets.written|
      ensures Roomy(log, SendsOf(old(sockets.written)), t.events) ==> CaughtUp(log, SendsOf(sockets.written), t.events)
      ensures TurnHeard(log[..round.served], old(W()), t.events)
    {
      hide Consistent, OpenTables, Follows, Books, Ledger, Sane, Traced, Feasible, ServicedAll, ReleasedAll, Delivers,
        Roomy, CaughtUp, TurnHeard, RoundDone, FirstTier, SizesOf, Sweep;
      ghost var w, before := W(), SendsOf(sockets.written);
      TurnGrows(table, w, t);
      FeasiblePrefix(ServicedAll(table, w, t.events).log, Turned(table, w, t).log, startClock, first);
      ServeAll(t.events);
      ghost var served := log;
      ServedIsHeard(table, w, t.events);
      var needed := store.wal.NeedsSync();
      if needed { SyncLog(); }
      ghost var marks := ReleaseAll(t.events);
      round := Round(|log|, marks);
      Housekeeping(t);
      RoundOver(|old(log)|, served, before, SendsOf(sockets.written), t, marks, log);
      assert log[..|served|] == served;
    }

    method ServeAll(es: seq<Event>)
      requires Valid() && Feasible(ServicedAll(table, W(), es).log, startClock, first)
      modifies this`conns, this`log, store, store.dir, store.memtable, store.wal
      ensures Valid() && acks == old(acks) && W() == ServicedAll(table, old(W()), es)
    {
      hide Consistent, OpenTables, Follows, Books, Ledger, Sane, Traced, Feasible, Serviced;
      ghost var w := W();
      assert es[..0] == [];
      for i := 0 to |es|
        invariant Valid() && acks == old(acks) && W() == ServicedAll(table, w, es[..i])
      {
        ServicedAllNext(table, w, es, i);
        ServicedAllGrows(table, w, es, i + 1);
        FeasiblePrefix(ServicedAll(table, w, es[..i + 1]).log, ServicedAll(table, w, es).log, startClock, first);
        Service(es[i]);
      }
      assert es[..|es|] == es;
    }

    /** Sweep, merge and tick: two entries nobody is answered for, and the map stays. */
    method Housekeeping(t: Tick)
      requires Valid() && Feasible(Kept(W(), t).log, startClock, first)
      modifies this`log, store, store.dir, store.memtable, store.wal
      ensures Valid() && acks == old(acks) && W() == Kept(old(W()), t)
      ensures Sweeper(store.memtable.rows, store.memtable.sweepCursor) ==
        Sweep(Sweeper(old(store.memtable.rows), old(store.memtable.sweepCursor)), t.sweepAt, 100)
      ensures var run := FirstTier(SizesOf(old(store.dir.files), old(store.tables)), |old(store.tables)|);
        store.options.useCompaction && run.len > 0 ==>
          |store.sstables| < |old(store.sstables)| || store.dir.refused > old(store.dir.refused)
    {
      hide Consistent, OpenTables, Follows, Books, Ledger, Sane, Traced, Traces, Feasible, Sweep, FirstTier, SizesOf;
      FeasiblePrefix(log + [Sweeping(t)], Kept(W(), t).log, startClock, first);
      Maintain(Sweeping(t).step);
      Maintain(Compacting(t).step);
      ghost var a := store.dir.Now();
      store.wal.MaybeSync(t.due);
      FollowsSync(a, store.dir.Now());
      Onwards(a, log);
    }

    method Maintain(step: Timed)
      requires Valid() && Feasible(log + [Upkeep(step)], startClock, first)
      requires step.step.SweepSome? || step.step.Compact?
      modifies this`log, store, store.dir, store.memtable, store.wal
      ensures Valid() && acks == old(acks) && W() == old(W()).(log := old(log) + [Upkeep(step)])
      ensures Upkept(store, step.step, step.now)
    {
      hide Consistent, OpenTables, Follows, Books, Ledger, StepSafe, Feasible, Room, Sane, Traced, Recorded, Upkept;
      ghost var a, w := store.dir.Now(), W();
      BooksUpkeep(table, start, startClock, w, store.clock, first, step);
      NothingApplied(store.model);
      var _ := Take(store, step);
      log := log + [Upkeep(step)];
      Onwards(a, w.log);
    }
  }

  // ---------------------------------------------------------------- serving for ever

  /** Any number of turns, any bytes from any clients. The loop executes exactly the commands
      in them, in order, answers each from what the keys held, and sends each client exactly
      the answers, as fast as its socket takes them. Whenever bytes leave, everything done so far
      is accounted for in the acknowledged map, and a power cut at that instant leaves a disk that
      recovers to it, unless it takes something that was already unsynced when the loop began and
      that the loop has not touched. */
  method Serve(loop: Loop, ticks: seq<Tick>) returns (ghost rounds: seq<Round>, ghost results: seq<Result>)
    requires loop.Valid() && Feasible(TurnedAll(loop.table, loop.W(), ticks).log, loop.startClock, loop.first)
    modifies loop, loop.sockets, loop.store, loop.store.dir, loop.store.memtable, loop.store.wal
    ensures loop.Valid() && loop.W() == TurnedAll(loop.table, old(loop.W()), ticks)
    ensures old(loop.acks) <= loop.acks && old(loop.sockets.written) <= loop.sockets.written
    ensures Runnable(Steps(loop.log), loop.startClock)
    ensures loop.store.model == AfterAll(loop.start, Steps(loop.log))
    ensures Carries(loop.table, loop.log, results) && Balanced(loop.W())
    ensures Truth(loop.start, Steps(loop.log), results) && LastWriteWins(loop.start, Steps(loop.log), results)
    ensures forall fd :: StreamOf(loop.W(), fd) == HearAll(StreamOf(old(loop.W()), fd), ReadsOf(ticks, fd))
    ensures Rounds(loop.log, SendsOf(loop.sockets.written), ticks, rounds, |old(loop.log)|, |old(loop.sockets.written)|)
    ensures HeardInTime(loop.log, rounds, old(loop.W()), ticks)
    ensures Ledger(loop.start, loop.startClock, loop.began, loop.store.dir.trace, loop.log, loop.sockets.written,
                   loop.acks)
    ensures forall i, d :: 0 <= i < |loop.acks| && Outlived(loop.store.dir.trace, loop.sockets.written[i].at, d) ==>
      Recovers(d, loop.acks[i].model, loop.acks[i].clock)
  {
    hide Consistent, OpenTables, Follows, Traced, Sane, Outlived, Recovers, Turned, Books, Ledger, Feasible, AfterAll,
      Runnable, Truthful, Balanced, Steps, StreamOf, HearAll, ReadsOf, ReadsIn, Rounds, RoundDone, Roomy, CaughtUp,
      HeardInTime, Truth, LastWriteWins, Carries, TurnHeard;
    ghost var w, entries, writes := loop.W(), |loop.log|, |loop.sockets.written|;
    rounds := [];
    assert ticks[..0] == [];
    NoRounds(loop.log, SendsOf(loop.sockets.written), w);
    for i := 0 to |ticks|
      invariant loop.Valid() && loop.W() == TurnedAll(loop.table, w, ticks[..i])
      invariant old(loop.acks) <= loop.acks && old(loop.sockets.written) <= loop.sockets.written
      invariant |rounds| == i
      invariant Rounds(loop.log, SendsOf(loop.sockets.written), ticks[..i], rounds, entries, writes)
      invariant HeardInTime(loop.log, rounds, w, ticks[..i])
    {
      ghost var log, sends := loop.log, SendsOf(loop.sockets.written);
      TurnedAllNext(loop.table, w, ticks, i);
      TurnedAllGrows(loop.table, w, ticks, i + 1);
      FeasiblePrefix(TurnedAll(loop.table, w, ticks[..i + 1]).log, TurnedAll(loop.table, w, ticks).log,
                     loop.startClock, loop.first);
      ghost var round := loop.Turn(ticks[i]);
      assert ticks[..i + 1] == ticks[..i] + [ticks[i]];
      RoundsNext(log, sends, ticks[..i], rounds, entries, writes, ticks[i], round, loop.log,
                 SendsOf(loop.sockets.written));
      HeardNext(loop.table, log, rounds, w, ticks[..i], ticks[i], round, loop.log);
      rounds := rounds + [round];
    }
    assert ticks[..|ticks|] == ticks;
    forall fd ensures StreamOf(loop.W(), fd) == HearAll(StreamOf(w, fd), ReadsOf(ticks, fd)) {
      EachStreamHeard(loop.table, w, ticks, fd);
    }
    BooksSay(loop.table, loop.start, loop.startClock, loop.W(), loop.store.clock);
    results := ResultsOf(loop.start, loop.log);
    TruthfulCarries(loop.table, loop.start, loop.log, loop.startClock);
    LedgerSays(loop.start, loop.startClock, loop.began, loop.store.dir.trace, loop.log, loop.sockets.written,
               loop.acks);
  }

  /** Every read of these events has been executed by now, and no other. */
  ghost predicate TurnHeard(log: seq<Entry>, w: Wire, es: seq<Event>) {
    forall fd :: CommandsOf(log, fd) == HearAll(StreamOf(w, fd), ReadsIn(es, fd)).commands
  }

  ghost predicate TurnsHeard(log: seq<Entry>, w: Wire, ts: seq<Tick>) {
    forall fd :: CommandsOf(log, fd) == HearAll(StreamOf(w, fd), ReadsOf(ts, fd)).commands
  }

  /** When the replies of a turn left, every read up to then had been executed. */
  ghost predicate HeardInTime(log: seq<Entry>, rounds: seq<Round>, w: Wire, ts: seq<Tick>) {
    && |rounds| == |ts|
    && forall i :: 0 <= i < |rounds| ==>
      rounds[i].served <= |log| && TurnsHeard(log[..rounds[i].served], w, ts[..i + 1])
  }

  lemma ServedIsHeard(table: CommandTable, w: Wire, es: seq<Event>)
    ensures TurnHeard(ServicedAll(table, w, es).log, w, es)
  {
    hide ServicedAll, HearAll, CommandsOf, ReasonsTo, ReadsIn;
    var v := ServicedAll(table, w, es);
    forall fd ensures CommandsOf(v.log, fd) == HearAll(StreamOf(w, fd), ReadsIn(es, fd)).commands {
      ServicedAllHeard(table, w, es, fd);
    }
  }

  lemma HeardNext(table: CommandTable, log: seq<Entry>, rounds: seq<Round>, w: Wire, ts: seq<Tick>, t: Tick,
                  round: Round, later: seq<Entry>)
    requires HeardInTime(log, rounds, w, ts) && log <= later && round.served <= |later|
    requires TurnHeard(later[..round.served], TurnedAll(table, w, ts), t.events)
    ensures HeardInTime(later, rounds + [round], w, ts + [t])
  {
    hide TurnHeard, TurnsHeard, TurnedAll;
    var all, next := ts + [t], rounds + [round];
    forall i | 0 <= i < |next|
      ensures next[i].served <= |later| && TurnsHeard(later[..next[i].served], w, all[..i + 1])
    {
      if i < |rounds| {
        assert later[..next[i].served] == log[..rounds[i].served] && all[..i + 1] == ts[..i + 1];
      } else {
        assert all[..i + 1] == all;
        HeardNow(table, later[..round.served], w, ts, t);
      }
    }
  }

  lemma HeardNow(table: CommandTable, log: seq<Entry>, w: Wire, ts: seq<Tick>, t: Tick)
    requires TurnHeard(log, TurnedAll(table, w, ts), t.events)
    ensures TurnsHeard(log, w, ts + [t])
  {
    hide CommandsOf, HearAll, StreamOf, ReadsIn, ReadsOf, TurnedAll;
    forall fd ensures CommandsOf(log, fd) == HearAll(StreamOf(w, fd), ReadsOf(ts + [t], fd)).commands {
      EachStreamHeard(table, w, ts, fd);
      ReadsSnoc(ts, t, fd);
      HearConcat(StreamOf(w, fd), ReadsOf(ts, fd), ReadsIn(t.events, fd));
    }
  }

  lemma ReadsSnoc(ts: seq<Tick>, t: Tick, fd: int)
    ensures ReadsOf(ts + [t], fd) == ReadsOf(ts, fd) + ReadsIn(t.events, fd)
  {
    assert (ts + [t])[..|ts|] == ts;
  }

  lemma NoRounds(log: seq<Entry>, sends: seq<Send>, w: Wire)
    ensures Rounds(log, sends, [], [], |log|, |sends|) && HeardInTime(log, [], w, [])
  {
  }

  /** A disk that losing power at that point of the trace may leave, with nothing lost that
      was not already at risk. */
  ghost predicate Outlived(trace: seq<Stage>, at: nat, d: Disk) {
    0 < at <= |trace| && PowerLoss(trace[at - 1], d) && Lucky(trace[at - 1], d)
  }

  lemma BooksSay(table: CommandTable, start: Model, clock: int, w: Wire, now: int)
    requires Books(table, start, clock, w, now)
    ensures Runnable(Steps(w.log), clock) && w.model == AfterAll(start, Steps(w.log))
    ensures Truthful(table, start, w.log) && Balanced(w)
  {
    hide MapAfter, AfterAll, Truthful, Balanced, AllBounded, Steps;
    MapAfterIsAfterAll(start, w.log, clock);
  }

  lemma LedgerSays(start: Model, clock: int, began: State, trace: seq<Stage>, log: seq<Entry>,
                   written: seq<Written>, acks: seq<Ack>)
    requires Ledger(start, clock, began, trace, log, written, acks)
    ensures |acks| == |written|
    ensures forall i, d :: 0 <= i < |acks| && Outlived(trace, written[i].at, d) ==>
      Recovers(d, acks[i].model, acks[i].clock)
  {
    hide Accounted, Replied, Recovers, RecoversWith, PowerLoss, Lucky;
    forall i, d | 0 <= i < |acks| && Outlived(trace, written[i].at, d)
      ensures Recovers(d, acks[i].model, acks[i].clock)
    {
      PowerLossHarmless(trace[written[i].at - 1], d, acks[i].tables, acks[i].model, acks[i].clock);
    }
  }
}
