/** The store's state as a value, the invariant every operation keeps, and what each
    operation's steps do to it. The Store class walks through these steps. */
module Engine {
  import opened ByteStrings
  import opened Rows
  import opened WalCodec
  import opened FileNames
  import opened FileSystem
  import opened StoreModel
  import opened DiskSteps
  import opened Compaction
  import opened MergeLaws

  datatype Engine = Engine(
    mem: Table,            // the memtable
    ts: seq<Numbered>,     // the open tables, newest first
    next: nat,             // the next table's number
    log: seq<Record>,      // the records in the log file
    files: Disk,           // the directory
    model: Model,          // the plain map all this stands for
    clock: int)            // the latest time any operation has seen

  ghost predicate Consistent(e: Engine) {
    && Ascending(e.mem) && Bare(e.mem)
    && Holds(e.files, e.ts) && (forall i :: 0 <= i < |e.ts| ==> e.ts[i].sequence < e.next) && e.next <= TWO_64
    && LogHolds(e.files, e.log)
    && SameView(e.mem, Replayed([], e.log), e.clock)
    && Agrees([e.mem] + RowsOf(e.ts), e.model, e.clock)
  }

  // ---------------------------------------------------------------- crash points

  /** Every state in this stretch of history restarts with the map `m` and some prefix of
      `batch` applied to it, and none of it is exposed. */
  ghost predicate Safe(moments: seq<Moment>, m: Model, batch: seq<Record>, clock: int) {
    forall i :: 0 <= i < |moments| ==> !moments[i].exposed && SafeDisk(moments[i].disk, m, batch, clock)
  }

  /** Every state outside the exposed parts restarts with the map `m`. */
  ghost predicate SafeOutside(moments: seq<Moment>, m: Model, clock: int) {
    forall i :: 0 <= i < |moments| && !moments[i].exposed ==> SafeDisk(moments[i].disk, m, [], clock)
  }

  lemma SafeIsOutside(moments: seq<Moment>, m: Model, clock: int)
    requires Safe(moments, m, [], clock)
    ensures SafeOutside(moments, m, clock)
  {
    hide SafeDisk;
  }

  ghost predicate SafeDisk(d: Disk, m: Model, batch: seq<Record>, clock: int) {
    exists whole :: 0 <= whole <= |batch| && Recovers(d, ApplyAll(m, batch[..whole]), clock)
  }

  /** The part of the history between two states. */
  ghost function Since(a: State, b: State): seq<Moment>
    requires a.history <= b.history
  {
    b.history[|a.history|..]
  }

  lemma SafeChain(a: State, b: State, c: State, m: Model, batch: seq<Record>, clock: int)
    requires a.history <= b.history <= c.history
    requires Safe(Since(a, b), m, batch, clock) && Safe(Since(b, c), m, batch, clock)
    ensures Safe(Since(a, c), m, batch, clock)
  {
    hide SafeDisk;
    var all := Since(a, c);
    forall i | 0 <= i < |all| ensures !all[i].exposed && SafeDisk(all[i].disk, m, batch, clock) {
      if |a.history| + i < |b.history| {
        assert all[i] == Since(a, b)[i];
      } else {
        assert all[i] == Since(b, c)[|a.history| + i - |b.history|];
      }
    }
  }

  lemma OutsideChain(a: State, b: State, c: State, m: Model, clock: int)
    requires a.history <= b.history <= c.history
    requires SafeOutside(Since(a, b), m, clock) && SafeOutside(Since(b, c), m, clock)
    ensures SafeOutside(Since(a, c), m, clock)
  {
    hide SafeDisk;
    var all := Since(a, c);
    forall i | 0 <= i < |all| && !all[i].exposed ensures SafeDisk(all[i].disk, m, [], clock) {
      if |a.history| + i < |b.history| {
        assert all[i] == Since(a, b)[i];
      } else {
        assert all[i] == Since(b, c)[|a.history| + i - |b.history|];
      }
    }
  }

  /** What is safe after the whole batch is safe during it, and so is what is safe before. */
  lemma SafeWithin(moments: seq<Moment>, m: Model, batch: seq<Record>, clock: int)
    ensures Safe(moments, ApplyAll(m, batch), [], clock) ==> Safe(moments, m, batch, clock)
    ensures Safe(moments, m, [], clock) ==> Safe(moments, m, batch, clock)
  {
    hide Recovers, ApplyAll;
    assert batch[..|batch|] == batch && batch[..0] == [];
    forall d: Disk ensures SafeDisk(d, ApplyAll(m, batch), [], clock) ==> SafeDisk(d, m, batch, clock) {
      if SafeDisk(d, ApplyAll(m, batch), [], clock) {
        NothingApplied(ApplyAll(m, batch));
        var none: seq<Record> := [];
        assert none[..0] == none;
        assert Recovers(d, ApplyAll(m, batch[..|batch|]), clock);
      }
    }
    forall d: Disk ensures SafeDisk(d, m, [], clock) ==> SafeDisk(d, m, batch, clock) {
      if SafeDisk(d, m, [], clock) {
        var none: seq<Record> := [];
        assert none[..0] == none;
        assert Recovers(d, ApplyAll(m, batch[..0]), clock);
      }
    }
  }

  lemma NothingApplied(m: Model)
    ensures ApplyAll(m, []) == m
  {
  }

  lemma SafeOne(d: Disk, ts: seq<Numbered>, m: Model, clock: int)
    requires RecoversWith(d, ts, m, clock)
    ensures SafeDisk(d, m, [], clock)
  {
    hide RecoversWith;
    NothingApplied(m);
    var none: seq<Record> := [];
    assert none[..0] == none;
    assert Recovers(d, ApplyAll(m, none[..0]), clock);
  }

  // ---------------------------------------------------------------- time, log, scratch files

  lemma ConsistentRecovers(e: Engine)
    requires Consistent(e)
    ensures RecoversWith(e.files, e.ts, e.model, e.clock)
  {
    hide Agrees, SameView, Holds, Scan;
    SameViewAgrees(e.mem, Replayed([], e.log), RowsOf(e.ts), e.model, e.clock);
  }

  lemma ConsistentLater(e: Engine, now: int)
    requires Consistent(e) && e.clock <= now
    ensures Consistent(e.(clock := now))
  {
    hide Agrees, SameView, Holds;
    AgreesLater([e.mem] + RowsOf(e.ts), e.model, e.clock, now);
    SameViewLater(e.mem, Replayed([], e.log), e.clock, now);
  }

  lemma {:induction false} SameViewReplayed(a: Table, b: Table, clock: int, rs: seq<Record>)
    requires Ascending(a) && Ascending(b) && SameView(a, b, clock)
    ensures SameView(Replayed(a, rs), Replayed(b, rs), clock)
    decreases |rs|
  {
    hide SameView, Put, Ascending;
    if rs != [] {
      SameViewPut(a, b, clock, RowOf(rs[0]));
      PutAscending(a, RowOf(rs[0]));
      PutAscending(b, RowOf(rs[0]));
      SameViewReplayed(Put(a, RowOf(rs[0])), Put(b, RowOf(rs[0])), clock, rs[1..]);
    }
  }

  /** The engine once a command's records are in the log and in the memtable. */
  function Logged(e: Engine, batch: seq<Record>, files: Disk): Engine {
    e.(mem := Replayed(e.mem, batch), log := e.log + batch, files := files, model := ApplyAll(e.model, batch))
  }

  lemma LoggedConsistent(e: Engine, batch: seq<Record>)
    requires Consistent(e) && Normal(batch)
    ensures Consistent(Logged(e, batch, e.files[WAL := e.files[WAL] + EncodeAll(batch)]))
  {
    hide Agrees, SameView, EncodeAll, Scan, Holds, Ascending, Bare, Replayed, ApplyAll;
    assert Ascending([]) && Bare([]) by { EmptyTable(); }
    ReplayedShape([], e.log);
    ReplayedShape(e.mem, batch);
    AgreesReplayed(e.mem, RowsOf(e.ts), e.model, e.clock, batch);
    SameViewReplayed(e.mem, Replayed([], e.log), e.clock, batch);
    ReplayedConcat([], e.log, batch);
    var whole := ScanAfterCut(e.files[WAL], batch, |EncodeAll(batch)|);
    assert batch[..whole] == batch && EncodeAll(batch)[..|EncodeAll(batch)|] == EncodeAll(batch);
    assert Meanings(batch) == batch;
    HoldsLog(e.files, e.ts, e.files[WAL] + EncodeAll(batch));
  }

  lemma EmptyLog()
    ensures Scan([]) == Scanned([], 0)
  {
    NothingDecodes();
  }

  lemma EmptyTable()
    ensures Ascending([]) && Bare([])
  {
  }

  lemma LogWriteSafe(e: Engine, batch: seq<Record>, moments: seq<Moment>)
    requires Consistent(e) && Normal(batch)
    requires IsAppend(moments, e.files, WAL, EncodeAll(batch), false)
    ensures Safe(moments, e.model, batch, e.clock)
  {
    hide Agrees, SameView, EncodeAll, Scan, Normal, RecoversWith, Holds, Ascending, Bare, Replayed, ApplyAll;
    SameViewAgrees(e.mem, Replayed([], e.log), RowsOf(e.ts), e.model, e.clock);
    forall i | 0 <= i < |moments| ensures !moments[i].exposed && SafeDisk(moments[i].disk, e.model, batch, e.clock) {
      var n :| 0 <= n <= |EncodeAll(batch)| &&
        moments[i].disk == e.files[WAL := e.files[WAL] + EncodeAll(batch)[..n]];
      var whole := LogWriteCrash(e.files, e.ts, e.log, batch, n, e.model, e.clock);
      assert Recovers(moments[i].disk, ApplyAll(e.model, batch[..whole]), e.clock);
    }
  }

  /** Work on a scratch file concerns nobody. */
  lemma ScratchConsistent(e: Engine, a: State, b: State, scratch: string)
    requires Consistent(e) && a.files == e.files && Scratch(scratch) && OnlyTouched(a, b, scratch) && !a.exposed
    ensures Consistent(e.(files := b.files))
    ensures Safe(Since(a, b), e.model, [], e.clock)
  {
    hide Agrees, SameView, RecoversWith, Holds, Scan;
    ConsistentRecovers(e);
    HoldsExcept(e.files, b.files, scratch, e.ts);
    var moments := Since(a, b);
    forall i | 0 <= i < |moments| ensures !moments[i].exposed && SafeDisk(moments[i].disk, e.model, [], e.clock) {
      RecoversExcept(e.files, moments[i].disk, scratch, e.ts, e.model, e.clock);
      SafeOne(moments[i].disk, e.ts, e.model, e.clock);
    }
  }

  lemma ScratchUnlinked(e: Engine, scratch: string)
    requires Consistent(e) && Scratch(scratch)
    ensures Consistent(e.(files := e.files - {scratch}))
    ensures SafeDisk(e.files - {scratch}, e.model, [], e.clock)
  {
    hide Agrees, SameView, RecoversWith, Holds, Scan;
    ConsistentRecovers(e);
    assert SameExcept(e.files - {scratch}, e.files, scratch);
    HoldsExcept(e.files, e.files - {scratch}, scratch, e.ts);
    RecoversExcept(e.files, e.files - {scratch}, scratch, e.ts, e.model, e.clock);
    SafeOne(e.files - {scratch}, e.ts, e.model, e.clock);
  }

  // ---------------------------------------------------------------- flush

  /** The directory after the rename of a flush. */
  function FlushedFiles(e: Engine): Disk
    requires FLUSH_TEMP in e.files
  {
    (e.files - {FLUSH_TEMP})[TableName(e.next) := e.files[FLUSH_TEMP]]
  }

  function Flushed(e: Engine): Engine
    requires FLUSH_TEMP in e.files
  {
    Engine([], [Numbered(e.next, e.mem)] + e.ts, e.next + 1, [], FlushedFiles(e)[WAL := []], e.model, e.clock)
  }

  lemma FlushedConsistent(e: Engine)
    requires Consistent(e) && e.next < TWO_64
    requires FLUSH_TEMP in e.files && IsTableFile(e.files[FLUSH_TEMP], e.mem)
    ensures SafeDisk(FlushedFiles(e), e.model, [], e.clock)
    ensures Consistent(Flushed(e))
    ensures SafeDisk(Flushed(e).files, e.model, [], e.clock)
  {
    hide Agrees, SameView, IsTableFile, Scan, TableName, SequenceOf, Holds, RecoversWith;
    OtherNames();
    ScratchUnlinked(e, FLUSH_TEMP);
    var base := e.files - {FLUSH_TEMP};
    var t := Numbered(e.next, e.mem);
    var ts := [t] + e.ts;
    HoldsNewest(base, e.ts, t, e.files[FLUSH_TEMP]);
    FlushRenamed(e.ts, e.mem, e.log, e.model, e.clock);
    RowsOfIgnoresNumbers(ts, [Numbered(0, e.mem)] + e.ts);
    TableNameIsNoOther(e.next);
    FlushStates(e, FlushedFiles(e), ts);
  }

  lemma FlushStates(e: Engine, renamed: Disk, ts: seq<Numbered>)
    requires Holds(renamed, ts) && LogHolds(renamed, e.log) && e.next < TWO_64
    requires forall i :: 0 <= i < |ts| ==> ts[i].sequence < e.next + 1
    requires Agrees([Replayed([], e.log)] + RowsOf(ts), e.model, e.clock)
    requires Agrees([[]] + RowsOf(ts), e.model, e.clock)
    ensures SafeDisk(renamed, e.model, [], e.clock)
    ensures Consistent(Engine([], ts, e.next + 1, [], renamed[WAL := []], e.model, e.clock))
    ensures SafeDisk(renamed[WAL := []], e.model, [], e.clock)
  {
    hide Agrees, Holds, Scan;
    assert RecoversWith(renamed, ts, e.model, e.clock);
    SafeOne(renamed, ts, e.model, e.clock);
    HoldsLog(renamed, ts, []);
    var e' := Engine([], ts, e.next + 1, [], renamed[WAL := []], e.model, e.clock);
    EmptyLog();
    assert Replayed([], []) == [];
    assert SameView([], [], e.clock);
    ConsistentRecovers(e');
    SafeOne(e'.files, ts, e.model, e.clock);
  }

  // ---------------------------------------------------------------- merge

  /** A run of tables and what it was merged into. */
  datatype Merge = Merge(begin: nat, len: nat, out: Table, drop: bool)

  function RunOf(e: Engine, g: Merge): seq<Table>
    requires g.begin + g.len <= |e.ts|
  {
    RowsOf(e.ts[g.begin..g.begin + g.len])
  }

  ghost predicate IsMergeOf(e: Engine, g: Merge) {
    && 0 < g.len && g.begin + g.len <= |e.ts|
    && (g.drop ==> g.begin + g.len == |e.ts|)
    && IsMerge(RunOf(e, g), g.out, g.drop, e.clock)
  }

  /** `files` after the rename and the first `left - 1` unlinks. */
  ghost predicate MidFiles(e: Engine, g: Merge, left: nat, files: Disk)
    requires g.begin + g.len <= |e.ts|
  {
    0 < left <= g.len && Holds(files, MidMerge(e.ts, g.begin, g.len, g.out, left)) && LogHolds(files, e.log)
  }

  function MergeTarget(e: Engine, g: Merge): string
    requires g.begin < |e.ts|
  {
    TableName(e.ts[g.begin].sequence)
  }

  lemma MergeRenamed(e: Engine, g: Merge)
    requires Consistent(e) && IsMergeOf(e, g)
    requires COMPACT_TEMP in e.files && IsTableFile(e.files[COMPACT_TEMP], g.out)
    ensures MidFiles(e, g, 1, (e.files - {COMPACT_TEMP})[MergeTarget(e, g) := e.files[COMPACT_TEMP]])
  {
    hide Agrees, SameView, IsTableFile, Scan, TableName, SequenceOf, IsMerge, MidMerge;
    OtherNames();
    ScratchUnlinked(e, COMPACT_TEMP);
    assert HoldsTable(e.files, e.ts[g.begin]);
    TableNameIsNoOther(e.ts[g.begin].sequence);
    hide Holds;
    HoldsMidMerge(e.files - {COMPACT_TEMP}, e.ts, g.begin, g.len, e.files[COMPACT_TEMP], g.out);
  }

  lemma MergeUnlinked(e: Engine, g: Merge, left: nat, files: Disk)
    requires g.begin + g.len <= |e.ts| && left < g.len && MidFiles(e, g, left, files)
    ensures MidFiles(e, g, left + 1, files - {TableName(e.ts[g.begin + left].sequence)})
  {
    hide Holds, TableName, Scan, MidMerge;
    HoldsNextUnlink(files, e.ts, g.begin, g.len, g.out, left);
  }

  lemma MidRestored(e: Engine, g: Merge, left: nat, files: Disk)
    requires Consistent(e) && IsMergeOf(e, g) && MidFiles(e, g, left, files)
    ensures Restored(files, MidMerge(e.ts, g.begin, g.len, g.out, left)) ==
      [Replayed([], e.log)] + RowsOf(MidMerge(e.ts, g.begin, g.len, g.out, left))
    ensures Agrees([Replayed([], e.log)] + RowsOf(e.ts), e.model, e.clock)
  {
    hide Agrees, SameView, Holds, Scan, IsMerge, MidMerge, RowsOf, Replayed;
    SameViewAgrees(e.mem, Replayed([], e.log), RowsOf(e.ts), e.model, e.clock);
  }

  /** A merge that keeps obsolete rows may be interrupted anywhere. */
  lemma MidMergeSafe(e: Engine, g: Merge, left: nat, files: Disk)
    requires Consistent(e) && IsMergeOf(e, g) && MidFiles(e, g, left, files) && !g.drop
    ensures SafeDisk(files, e.model, [], e.clock)
  {
    hide Agrees, SameView, Holds, Scan, IsMerge, MidMerge, RowsOf, Replayed, Restored;
    MidRestored(e, g, left, files);
    MidMergeAgrees(Replayed([], e.log), e.ts, g.begin, g.len, g.out, left, e.model, e.clock);
    SafeOne(files, MidMerge(e.ts, g.begin, g.len, g.out, left), e.model, e.clock);
  }

  /** A merge that drops them may be interrupted, between the rename and the last unlink,
      exactly when nothing it dropped is alive in an input that is still there. */
  lemma MidDropExact(e: Engine, g: Merge, left: nat, files: Disk)
    requires Consistent(e) && IsMergeOf(e, g) && MidFiles(e, g, left, files) && g.drop
    ensures Recovers(files, e.model, e.clock) <==>
      NothingResurfaces([Replayed([], e.log)] + RowsOf(e.ts[..g.begin]), RunOf(e, g),
                        RowsOf(e.ts[g.begin + left..g.begin + g.len]), e.clock)
  {
    hide Agrees, SameView, Holds, Scan, IsMerge, MidMerge, RowsOf, Replayed, NothingResurfaces, Recovers;
    MidRestored(e, g, left, files);
    CrashInsideDropMerge(files, e.ts, g.begin, g.len, g.out, left, Replayed([], e.log), e.model, e.clock);
  }

  function Merged(e: Engine, g: Merge, files: Disk): Engine
    requires 0 < g.len && g.begin + g.len <= |e.ts|
  {
    e.(ts := MidMerge(e.ts, g.begin, g.len, g.out, g.len), files := files)
  }

  lemma MergedConsistent(e: Engine, g: Merge, files: Disk)
    requires Consistent(e) && IsMergeOf(e, g) && MidFiles(e, g, g.len, files)
    ensures Consistent(Merged(e, g, files))
    ensures SafeDisk(files, e.model, [], e.clock)
  {
    hide Agrees, SameView, Scan, IsMerge, MidMerge, RowsOf, Replayed, Ascending, Bare, LogHolds, Descending,
      HoldsTable, Named;
    var ts := MidMerge(e.ts, g.begin, g.len, g.out, g.len);
    MidMergeOrder(e.ts, g.begin, g.len, g.out, g.len, e.next);
    hide Holds;
    if g.drop {
      EndMergeAgrees(e.mem, e.ts, g.begin, g.len, g.out, e.model, e.clock);
    } else {
      MidMergeAgrees(e.mem, e.ts, g.begin, g.len, g.out, g.len, e.model, e.clock);
    }
    assert Consistent(Merged(e, g, files));
    ConsistentRecovers(Merged(e, g, files));
    SafeOne(files, ts, e.model, e.clock);
  }

  /** A merge that wrote nothing leaves nothing worth keeping. */
  lemma EmptyMergeConsistent(e: Engine, i: nat)
    requires Consistent(e) && i < |e.ts| && e.ts[i].rows == []
    ensures Consistent(e.(ts := Without(e.ts, i), files := e.files - {TableName(e.ts[i].sequence)}))
    ensures SafeDisk(e.files - {TableName(e.ts[i].sequence)}, e.model, [], e.clock)
  {
    hide Agrees, SameView, Holds, TableName, RowsOf, Scan, Replayed;
    var e' := e.(ts := Without(e.ts, i), files := e.files - {TableName(e.ts[i].sequence)});
    HoldsUnlink(e.files, e.ts, i);
    EmptyTableGoes(e.mem, e.ts, i, e.model, e.clock);
    assert Consistent(e');
    ConsistentRecovers(e');
    SafeOne(e'.files, e'.ts, e.model, e.clock);
  }

  // ---------------------------------------------------------------- sweep and flush_all

  lemma SweptConsistent(e: Engine, rows: Table)
    requires Consistent(e) && Ascending(rows) && Bare(rows) && SameView(e.mem, rows, e.clock)
    ensures Consistent(e.(mem := rows))
  {
    hide Agrees, Search, Holds, Replayed, Ascending, Bare;
    SameViewAgrees(e.mem, rows, RowsOf(e.ts), e.model, e.clock);
    forall key: Bytes
      ensures Search(rows, key).Some? == Search(Replayed([], e.log), key).Some?
      ensures Visible(Search(rows, key), e.clock) == Visible(Search(Replayed([], e.log), key), e.clock)
    {
      assert Search(e.mem, key).Some? == Search(rows, key).Some?;
      assert Search(e.mem, key).Some? == Search(Replayed([], e.log), key).Some?;
    }
  }

  /** Everything gone: no table, an empty log, an empty map. */
  lemma EmptiedConsistent(files: Disk, clock: int)
    requires Holds(files, []) && WAL in files && files[WAL] == []
    ensures Consistent(Engine([], [], 1, [], files, map[], clock))
  {
    EmptyLog();
    assert Replayed([], []) == [];
    assert RowsOf([]) == [];
    forall key: Bytes ensures Visible(FirstHit([[]] + [], key), clock) == Read(map[], key, clock) {
      assert FirstHit([[]] + [], key) == None by {
        TopFirst([], [], key);
      }
    }
  }
}
