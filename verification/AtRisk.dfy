/** What losing power can still take, and when. */
module AtRisk {
  import opened ByteStrings
  import opened Rows
  import opened WalCodec
  import opened WalFile
  import opened FileNames
  import opened FileSystem
  import opened StoreModel
  import opened DiskSteps
  import opened Engine
  import opened Store
  import opened StoreSteps
  import opened StoreRecovery
  import opened RunModel
  import opened StoreRun
  import opened Memtable
  import opened Resp
  import opened RespLimits
  import opened Traffic
  import opened Server

  /** Of what a restart looks at, nothing but the log is unsynced. */
  ghost predicate OnlyLogDirty(now: Stage) {
    forall name :: Recoverable(name) && name != WAL ==> !Dirty(now, name)
  }

  /** A start on a settled directory leaves the log unsynced if its tail was torn or it was
      missing, its name if it was missing, and nothing else. */
  lemma StartLeaves(a: State, b: State)
    requires Settled(StageOf(a)) && Begun(a, b)
    ensures OnlyLogDirty(StageOf(b))
    ensures WAL in b.dirtyNames <==> WAL !in a.files
    ensures WAL in b.dirtyData <==> !LogWhole(a.files)
  {
    hide LogWhole, Cleaned;
    OtherNames();
    assert Recoverable(WAL) && !Dirty(StageOf(a), WAL);
    forall name | Recoverable(name) && name != WAL ensures !Dirty(StageOf(b), name) {
      assert name != COMPACT_TEMP && name != FLUSH_TEMP;
      assert !Dirty(StageOf(a), name);
    }
  }

  /** From then on: once the loop has logged anything, and once the directory has been synced
      if the log's name was new, every acknowledgement survives losing power. */
  lemma SafeFromThenOn(began: Stage, now: Stage, ack: Ack, d: Disk)
    requires OnlyLogDirty(began) && Durable(began, now, ack) && PowerLoss(now, d)
    requires !SameFile(began.disk, now.disk, WAL) || WAL !in began.dirtyData
    requires began.dirSyncs < now.dirSyncs || WAL !in began.dirtyNames
    ensures Settled(now) && Recovers(d, ack.model, ack.clock)
  {
    hide RecoversWith, SequenceOf, PowerLoss, Recovers;
    PowerLossHarmless(now, d, ack.tables, ack.model, ack.clock);
  }

  /** The directory entry of a log that had to be created is synced by nobody until the
      first table is renamed. Until then, with something to lose, an acknowledgement survives
      losing power exactly when that entry happens to have reached the disk. */
  lemma FreshLogEntry(began: Stage, now: Stage, ack: Ack, key: Bytes)
    requires OnlyLogDirty(began) && Durable(began, now, ack) && WAL !in now.dirtyData && ack.tables == []
    requires Read(ack.model, key, ack.clock).Some?
    ensures WAL in now.dirtyNames ==> WAL in began.dirtyNames && now.dirSyncs == began.dirSyncs
    ensures WAL !in now.dirtyNames <==> forall d: Disk :: PowerLoss(now, d) ==> Recovers(d, ack.model, ack.clock)
    ensures WAL in now.dirtyNames ==>
      PowerLoss(now, now.disk - {WAL}) && !Recovers(now.disk - {WAL}, ack.model, ack.clock)
  {
    hide RecoversWith, SequenceOf, Recovers;
    OtherNames();
    assert Recoverable(WAL);
    if WAL !in now.dirtyNames {
      forall d: Disk | PowerLoss(now, d) ensures Recovers(d, ack.model, ack.clock) {
        PowerLossHarmless(now, d, ack.tables, ack.model, ack.clock);
      }
    } else {
      var d := now.disk - {WAL};
      assert PowerLoss(now, d);
      NoTables(now.disk, ack.model, ack.clock);
      if Recovers(d, ack.model, ack.clock) { NothingToRead(d, ack.model, ack.clock, key); }
    }
  }

  lemma NoTables(files: Disk, m: Model, clock: int)
    requires RecoversWith(files, [], m, clock)
    ensures Holds(files - {WAL}, [])
  {
    hide SequenceOf, Agrees;
  }

  lemma NothingToRead(d: Disk, m: Model, clock: int, key: Bytes)
    requires Holds(d, []) && WAL !in d && Recovers(d, m, clock)
    ensures Read(m, key, clock).None?
  {
    hide Holds, Scan, Search;
    var us :| RecoversWith(d, us, m, clock);
    HoldsUnique(d, us, []);
    EmptyLog();
    assert Replayed([], []) == [];
    assert Restored(d, us) == [[]] + [];
    TopFirst([], [], key);
    SearchOne(Tombstone([]), key);
    assert Visible(FirstHit([[]] + [], key), clock) == Read(m, key, clock);
  }

  // ---------------------------------------------------------------- it happens

  /** The map after one SET with no expiry reads the value back. */
  lemma SetReadsBack(m: Model, key: Bytes, value: Bytes, now: int)
    requires Sendable(SetKey(key, value, 0)) && IsInt64(now)
    ensures Read(After(m, Timed(SetKey(key, value, 0), now)), key, now) == Some(Stamped(value, 0))
  {
    var r := Mutation(SetOp, now, 0, key, value);
    assert Records(m, Timed(SetKey(key, value, 0), now)) == [r];
    assert ApplyAll(m, [r]) == Apply(ApplyAll(m, []), r);
  }

  /** In a directory with nothing in it but a log there are no tables. */
  lemma NoTablesYet(e: Engine)
    requires Consistent(e) && e.files == Cleaned(map[])
    ensures e.ts == []
  {
    hide SequenceOf, IsTableFile, Agrees, Scan, TableName, SameView, LogHolds;
    OtherNames();
    assert forall name :: name in e.files ==> name == WAL;
    assert Holds(e.files, []);
    HoldsUnique(e.files, e.ts, []);
  }

  lemma OneCommand(table: CommandTable, w: Wire, fd: int, c: Command, now: int)
    requires w.log == [] && IsInt64(now)
    ensures Feasible(Executed(table, w, fd, c, now).log, now, 1)
  {
    hide Answer, Effect;
    var e := Executed(table, w, fd, c, now).log[0];
    StepsSnoc([], e);
    assert Executed(table, w, fd, c, now).log == [] + [e];
  }

  lemma NothingUnsynced(now: Stage)
    requires now.dirtyData == {} && now.dirtyNames == {}
    ensures Settled(now)
  {
  }

  /** What is unsynced when the first bytes leave. */
  lemma NameStillUnsynced(loop: Loop)
    requires loop.Valid() && WAL in loop.began.dirtyNames && loop.store.dir.dirSyncs == loop.began.dirSyncs
    ensures WAL in loop.store.dir.dirtyNames
  {
    hide Consistent, OpenTables, Books, Ledger, Sane, DirtKept, NamesSettled, Recorded;
    assert Recoverable(WAL);
  }

  lemma AckIsSealed(loop: Loop)
    requires loop.Valid() && |loop.acks| == 1 && loop.sockets.written[0].at == |loop.store.dir.trace|
    ensures Durable(StageOf(loop.began), StageOf(loop.store.dir.Now()), loop.acks[0])
    ensures 0 < |loop.store.dir.trace| &&
      loop.store.dir.trace[|loop.store.dir.trace| - 1] == StageOf(loop.store.dir.Now())
  {
    hide Consistent, OpenTables, Books, Sane, Follows, Durable, Accounted, Replied;
  }

  lemma SaneStep(table: CommandTable, c: Command, now: int)
    requires Sane(table) && AllShort(c) && IsInt64(now)
    ensures Sendable(table.step(c, now))
  {
    hide AllShort, Sendable;
  }

  /** A loop over a new data directory. */
  method NewLoop(table: CommandTable, now: int, options: Options, policy: SyncPolicy, group: bool) returns (loop: Loop)
    requires Sane(table)
    ensures loop.Valid() && fresh(loop) && fresh(loop.sockets) && fresh(loop.store) && fresh(loop.store.dir)
    ensures fresh(loop.store.memtable) && fresh(loop.store.wal) && loop.table == table && loop.store.options == options
    ensures loop.log == [] && loop.conns == map[] && loop.sockets.written == [] && loop.startClock == now
    ensures loop.first == 1 && loop.store.model == map[] && loop.store.tables == [] && loop.store.memtable.bytes == 0
    ensures loop.began == loop.store.dir.Now() && WAL in loop.began.dirtyNames && OnlyLogDirty(StageOf(loop.began))
  {
    hide Consistent, OpenTables, Follows, Recovers, Safe, Sane, Books, Ledger, Cleaned, LogWhole, OnlyLogDirty, Settled;
    var dir := new Directory(map[]);
    ghost var a := dir.Now();
    NothingRecovers(now);
    NothingUnsynced(StageOf(a));
    var s := Start(dir, options, policy, group, map[], now);
    NoTablesYet(s.E());
    StartLeaves(a, dir.Now());
    var net := new Sockets(dir);
    loop := new Loop(s, table, net);
  }

  /** What `Executed` says of a command that sets a key. */
  lemma SetExecuted(table: CommandTable, w: Wire, fd: int, c: Command, now: int, key: Bytes, value: Bytes)
    requires w.log == [] && w.conns == map[] && IsInt64(now)
    requires table.step(c, now) == SetKey(key, value, 0) && Sendable(SetKey(key, value, 0))
    ensures var v := Executed(table, w, fd, c, now); var t := Timed(SetKey(key, value, 0), now);
      && v.log == [Served(t, fd, c, table.reply(c, Nothing))] && v.sends == w.sends && v.model == After(w.model, t)
      && ConnOf(v.conns, fd).out == table.reply(c, Nothing)
  {
    hide After, Sendable;
  }

  /** One command on a new loop, its log synced, its reply sent. */
  method FirstWrite(loop: Loop, fd: int, command: Command, now: int, accepts: nat, ghost key: Bytes, ghost value: Bytes)
    requires loop.Valid() && loop.log == [] && loop.conns == map[] && loop.sockets.written == []
    requires loop.startClock == now && loop.first == 1 && loop.store.tables == [] && IsInt64(now)
    requires AllShort(command) && loop.table.step(command, now) == SetKey(key, value, 0)
    requires Sendable(SetKey(key, value, 0)) &&
      Room(loop.store.memtable.bytes, loop.store.options, SetKey(key, value, 0))
    requires loop.table.reply(command, Nothing) != [] && accepts > 0
    modifies loop, loop.sockets, loop.store, loop.store.dir, loop.store.memtable, loop.store.wal
    ensures loop.Valid() && |loop.acks| == 1 == |loop.sockets.written|
    ensures loop.log == [Served(Timed(SetKey(key, value, 0), now), fd, command, loop.table.reply(command, Nothing))]
    ensures loop.sockets.written[0].at == |loop.store.dir.trace| && WAL !in loop.store.dir.dirtyData
    ensures loop.acks[0].tables == [] &&
      loop.acks[0].model == After(old(loop.store.model), Timed(SetKey(key, value, 0), now))
    ensures loop.acks[0].clock == now && loop.store.dir.dirSyncs == old(loop.store.dir.dirSyncs)
  {
    hide Consistent, OpenTables, Follows, Sane, AllShort, Books, Ledger, Feasible, Sendable, Traced, Room, After,
      Executed, ConnOf;
    OneCommand(loop.table, loop.W(), fd, command, now);
    SetExecuted(loop.table, loop.W(), fd, command, now, key, value);
    loop.Execute(fd, command, now);
    ClockIs(loop);
    loop.SyncLog();
    loop.Release(Event(fd, [], [], accepts));
  }

  lemma ClockIs(loop: Loop)
    requires loop.Valid() && |loop.log| == 1 && loop.log[0].Served?
    ensures loop.store.clock == loop.log[0].step.now
  {
    hide Consistent, OpenTables, Follows, Sane, Ledger, Tidy, Runnable, Traced;
    StepsSnoc([], loop.log[0]);
    assert [] + [loop.log[0]] == loop.log;
  }

  /** A new data directory, one command that sets a key, the log synced as always, the reply
      sent. Power lost now can take the log's name and with it the key. */
  method FirstWriteAtRisk(key: Bytes, value: Bytes, command: Command, table: CommandTable, fd: int, now: int,
                          accepts: nat, options: Options, policy: SyncPolicy, group: bool)
    returns (loop: Loop, ghost d: Disk)
    requires Sane(table) && AllShort(command) && IsInt64(now) && table.step(command, now) == SetKey(key, value, 0)
    requires CostOf(key, value) < options.memtableLimit && table.reply(command, Nothing) != [] && accepts > 0
    ensures loop.Valid() && |loop.acks| == 1 == |loop.sockets.written|
    ensures loop.log == [Served(Timed(SetKey(key, value, 0), now), fd, command, table.reply(command, Nothing))]
    ensures var ack, at := loop.acks[0], loop.sockets.written[0].at;
      && 0 < at <= |loop.store.dir.trace| && Read(ack.model, key, ack.clock) == Some(Stamped(value, 0))
      && WAL in loop.store.dir.trace[at - 1].dirtyNames
      && PowerLoss(loop.store.dir.trace[at - 1], d) && !Recovers(d, ack.model, ack.clock)
  {
    SaneStep(table, command, now);
    hide Consistent, OpenTables, Follows, Recovers, Sane, AllShort, Books, Ledger, Durable, PowerLoss, OnlyLogDirty,
      Read, After, Sendable, Traced, CostOf, StageOf;
    loop := NewLoop(table, now, options, policy, group);
    FirstWrite(loop, fd, command, now, accepts, key, value);
    NameStillUnsynced(loop);
    AckIsSealed(loop);
    SetReadsBack(map[], key, value, now);
    FreshLogEntry(StageOf(loop.began), StageOf(loop.store.dir.Now()), loop.acks[0], key);
    d := loop.store.dir.files - {WAL};
  }
}
