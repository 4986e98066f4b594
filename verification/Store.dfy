/** The storage engine's front door. Each operation is the program's sequence of steps
    over the log, the memtable, the directory and the tables; its contract says what
    the operation does to the plain map, and that a crash between any two steps, or
    part way through a log write, leaves a disk that restarts with that map. */
module Store {
  import opened ByteStrings
  import opened Rows
  import opened WalCodec
  import opened WalFile
  import opened FileNames
  import opened FileSystem
  import opened StoreModel
  import opened DiskSteps
  import opened Engine
  import opened Memtable
  import opened SstableReader
  import opened SstableWriter
  import opened StoreRecovery
  import opened StoreSteps
  import opened Compaction
  import opened TierWalk
  import SstableFormat

  datatype Options = Options(memtableLimit: nat, bitsPerKey: int, useBloom: bool, useCompaction: bool)

  class Store {
    const dir: Directory
    const memtable: MemTable
    const wal: Wal
    const options: Options
    var sstables: seq<Sstable>
    var nextSequence: nat
    var flushFailed: bool
    var compactions: nat
    var sweptKeys: nat

    ghost var tables: seq<Numbered>
    ghost var log: seq<Record>
    ghost var model: Model
    ghost var clock: int

    ghost function E(): Engine
      reads this, dir, memtable
    {
      Engine(memtable.rows, tables, nextSequence, log, dir.files, model, clock)
    }

    ghost predicate Valid()
      reads this, dir, memtable, wal
    {
      && wal.dir == dir && memtable.Valid() && wal.Valid() && !dir.exposed
      && OpenTables(sstables, tables) && Consistent(E())
    }

    /** One reading of a clock that never goes back, and a table number left to use. */
    ghost predicate Ready(now: int)
      reads this
    {
      clock <= now && IsInt64(now) && nextSequence < TWO_64
    }

    constructor (d: Directory, mt: MemTable, w: Wal, o: Options, open: seq<Sstable>, next: nat,
                 ghost ts: seq<Numbered>, ghost rs: seq<Record>, ghost m: Model, ghost c: int)
      ensures dir == d && memtable == mt && wal == w && options == o && sstables == open && nextSequence == next
      ensures tables == ts && log == rs && model == m && clock == c
    {
      dir, memtable, wal, options, sstables, nextSequence := d, mt, w, o, open, next;
      flushFailed, compactions, sweptKeys := false, 0, 0;
      tables, log, model, clock := ts, rs, m, c;
    }

    // -------------------------------------------------------------- reading

    /** The layered walk: the memtable, then the tables newest first. The first layer
        with anything to say ends it, be it a value, a tombstone or an expired row. */
    method LookupIn(key: Bytes, now: int, ghost m: Model) returns (found: Option<Stamped>)
      requires memtable.Valid() && OpenTables(sstables, tables)
      requires Agrees([memtable.rows] + RowsOf(tables), m, now)
      ensures found == Read(m, key, now)
    {
      hide FirstHit, Search, Reads, TableName, LiveCount, TotalCost;
      TopFirst(memtable.rows, RowsOf(tables), key);
      assert Visible(FirstHit([memtable.rows] + RowsOf(tables), key), now) == Read(m, key, now);
      var entry := memtable.Find(key);
      if entry.Some? {
        if entry.value.tombstone { return None; }
        if Expired(entry.value.stamp, now) { return None; }
        return Some(Stamped(entry.value.value, entry.value.stamp));
      }
      ghost var all := RowsOf(tables);
      for i := 0 to |sstables|
        invariant forall j :: 0 <= j < i ==> Search(all[j], key).None?
      {
        assert IsOpen(sstables[i], tables[i]);
        var hit := Get(sstables[i], key, tables[i].rows);
        if hit.Some? {
          FirstHitAt(all, i, key);
          if hit.value.tombstone { return None; }
          if Expired(hit.value.stamp, now) { return None; }
          return Some(Stamped(hit.value.value, hit.value.stamp));
        }
      }
      FirstHitMiss(all, key);
      return None;
    }

    method Lookup(key: Bytes, now: int) returns (found: Option<Stamped>)
      requires Valid() && clock <= now
      ensures found == Read(model, key, now)
    {
      hide Agrees;
      AgreesLater([memtable.rows] + RowsOf(tables), model, clock, now);
      found := LookupIn(key, now, model);
    }

    // -------------------------------------------------------------- writing

    /** What every write promises: the records reach the map, and whatever instant the
        process dies at, a restart finds the map with a prefix of them applied. */
    twostate predicate Wrote(batch: seq<Record>, now: int)
      reads this, dir, memtable, wal
    {
      && Valid() && clock == now
      && model == ApplyAll(old(model), batch)
      && Kept() && Safe(Since(old(dir.Now()), dir.Now()), old(model), batch, now)
    }

    /** What every operation keeps. */
    twostate predicate Kept()
      reads this, dir, memtable, wal
    {
      && old(dir.history) <= dir.history
      && Follows(old(dir.Now()), dir.Now()) && (wal.inherited ==> old(wal.inherited))
      && old(nextSequence) <= nextSequence <= old(nextSequence) + 1
    }

    /** The log comes first: after this the records are in the file and not yet in the
        memtable. */
    ghost predicate AheadOf(e: Engine, batch: seq<Record>)
      reads this, dir, memtable, wal
    {
      && wal.dir == dir && memtable.Valid() && wal.Valid() && !dir.exposed && OpenTables(sstables, tables)
      && memtable.rows == e.mem && tables == e.ts && nextSequence == e.next && log == e.log
      && model == e.model && clock == e.clock
      && Consistent(Logged(e, batch, dir.files))
    }

    twostate predicate LogKept(now: int, batch: seq<Record>)
      reads this, dir, memtable, wal
    {
      && old(dir.history) <= dir.history
      && Follows(old(dir.Now()), dir.Now()) && (wal.inherited ==> old(wal.inherited))
      && AheadOf(old(E()).(clock := now), batch)
      && Safe(Since(old(dir.Now()), dir.Now()), old(model), batch, now)
    }

    method LogOne(r: Record, now: int)
      requires Valid() && Ready(now) && Meaning(r) == r
      modifies this`clock, dir, wal
      ensures LogKept(now, [r]) && dir.dirSyncs == old(dir.dirSyncs)
    {
      hide Consistent, Apply, Safe, Encode, Put, Follows, OpenTables, Replayed, ApplyAll, EncodeAll;
      ConsistentLater(E(), now);
      clock := now;
      OneRecord(memtable.rows, model, r);
      ghost var e, a := E(), dir.Now();
      wal.Append(r);
      LogWriteSafe(e, [r], Since(a, dir.Now()));
      LoggedConsistent(e, [r]);
      FollowsAppend(a, dir.Now(), Encode(r));
    }

    method LogMany(rs: seq<Record>, now: int)
      requires Valid() && Ready(now) && Normal(rs)
      modifies this`clock, dir, wal
      ensures LogKept(now, rs)
    {
      hide Consistent, Apply, Safe, Encode, Put, Follows, OpenTables, Replayed, ApplyAll, EncodeAll;
      ConsistentLater(E(), now);
      clock := now;
      ghost var e, a := E(), dir.Now();
      wal.AppendBatch(rs);
      LogWriteSafe(e, rs, Since(a, dir.Now()));
      LoggedConsistent(e, rs);
      FollowsAppend(a, dir.Now(), EncodeAll(rs));
    }

    method Set(key: Bytes, value: Bytes, stamp: int, now: int)
      requires Valid() && Ready(now) && Short(key) && Short(value) && IsInt64(stamp)
      modifies this, dir, memtable, wal
      ensures Wrote([Mutation(SetOp, now, stamp, key, value)], now)
      ensures old(memtable.bytes) + CostOf(key, value) < options.memtableLimit ==>
        dir.dirSyncs == old(dir.dirSyncs) && tables == old(tables)
    {
      hide Consistent, Apply, Safe, Put, Follows, OpenTables, Replayed, ApplyAll, CostOf;
      var r: Record := Mutation(SetOp, now, stamp, key, value);
      OneRecord(memtable.rows, model, r);
      LogOne(r, now);
      label Logged:
      memtable.Set(key, value, stamp);
      log, model := log + [r], Apply(model, r);
      MaybeFlush();
      WriteDone(old(dir.Now()), old@Logged(dir.Now()), dir.Now(), old(model), [r], now);
    }

    method Del(key: Bytes, now: int) returns (wasLive: bool)
      requires Valid() && Ready(now) && Short(key)
      modifies this, dir, memtable, wal
      ensures Wrote([Mutation(DeleteOp, now, 0, key, [])], now)
      ensures wasLive == Read(old(model), key, now).Some?
    {
      hide Consistent, Apply, Safe, Put, Follows, OpenTables, Replayed, ApplyAll, Read;
      var before := Lookup(key, now);
      wasLive := before.Some?;
      var r: Record := Mutation(DeleteOp, now, 0, key, []);
      OneRecord(memtable.rows, model, r);
      LogOne(r, now);
      label Logged:
      var _ := memtable.Del(key);
      log, model := log + [r], Apply(model, r);
      MaybeFlush();
      WriteDone(old(dir.Now()), old@Logged(dir.Now()), dir.Now(), old(model), [r], now);
    }

    /** Every tombstone in one log write; the count is taken key by key, so a key named
        twice is counted once. */
    method DelMany(keys: seq<Bytes>, now: int) returns (removed: nat)
      requires Valid() && Ready(now) && forall i :: 0 <= i < |keys| ==> Short(keys[i])
      modifies this, dir, memtable, wal
      ensures Wrote(Deletions(keys, now), now)
      ensures removed == |LiveKeys(old(model), keys, now)|
    {
      hide Consistent, Apply, Safe, Put, Follows, OpenTables, Replayed, ApplyAll, Read, LiveCount, TotalCost, Agrees;
      var batch := Deletions(keys, now);
      ghost var e := E().(clock := now);
      ConsistentAgrees(E(), now);
      LogMany(batch, now);
      label Logged:
      removed := DelFromMemory(keys, now, e.model, e.mem);
      log, model := log + batch, ApplyAll(model, batch);
      MaybeFlush();
      WriteDone(old(dir.Now()), old@Logged(dir.Now()), dir.Now(), old(model), batch, now);
    }

    method DelFromMemory(keys: seq<Bytes>, now: int, ghost m: Model, ghost mem: Table) returns (removed: nat)
      requires IsInt64(now) && forall i :: 0 <= i < |keys| ==> Short(keys[i])
      requires memtable.Valid() && memtable.rows == mem && OpenTables(sstables, tables)
      requires Agrees([mem] + RowsOf(tables), m, now)
      modifies memtable
      ensures memtable.Valid() && memtable.rows == Replayed(mem, Deletions(keys, now))
      ensures removed == |LiveKeys(m, keys, now)|
    {
      hide Apply, Put, OpenTables, Read, LiveCount, TotalCost, Agrees, Ascending, Bare, Meaning;
      removed := 0;
      ghost var batch := Deletions(keys, now);
      NothingDeleted(m, mem, batch);
      assert LiveKeys(m, keys[..0], now) == {};
      for i := 0 to |keys|
        invariant memtable.Valid() && memtable.rows == Replayed(mem, batch[..i])
        invariant Agrees([memtable.rows] + RowsOf(tables), ApplyAll(m, batch[..i]), now)
        invariant removed == |LiveKeys(m, keys[..i], now)|
      {
        var found := LookupIn(keys[i], now, ApplyAll(m, batch[..i]));
        DeletedRead(m, keys, now, i, keys[i]);
        LiveKeysStep(m, keys, now, i);
        if found.Some? { removed := removed + 1; }
        ReplayStep(m, mem, batch, i);
        AgreesPut(memtable.rows, RowsOf(tables), ApplyAll(m, batch[..i]), now, batch[i]);
        var _ := memtable.Del(keys[i]);
      }
      assert batch[..|keys|] == batch && keys[..|keys|] == keys;
    }

    /** The clock was read and nothing was written. */
    method Touch(now: int)
      requires Valid() && clock <= now
      modifies this`clock
      ensures Wrote([], now) && dir.Now() == old(dir.Now()) && tables == old(tables)
    {
      hide Consistent, Follows, OpenTables, Safe;
      ConsistentLater(E(), now);
      clock := now;
      Still(dir.Now());
      NoMoments(dir.Now(), model, now);
      NothingApplied(model);
    }

    /** Read, then write back under the new stamp; nothing happens to a key that is not
        there. */
    method Expire(key: Bytes, stamp: int, now: int) returns (applied: bool)
      requires Valid() && Ready(now) && Short(key) && IsInt64(stamp)
      modifies this, dir, memtable, wal
      ensures applied == Read(old(model), key, now).Some?
      ensures applied ==> Wrote([Mutation(SetOp, now, stamp, key, Read(old(model), key, now).value.value)], now)
      ensures !applied ==> Wrote([], now)
    {
      hide Consistent, Follows, OpenTables, Safe, Apply, Read;
      var found := Lookup(key, now);
      if found.None? {
        Touch(now);
        return false;
      }
      Set(key, found.value.value, stamp, now);
      return true;
    }

    /** The active half of expiry. Nothing is logged and nothing visible changes. */
    method SweepExpired(budget: nat, now: int) returns (swept: nat)
      requires Valid() && clock <= now
      modifies this`clock, this`sweptKeys, memtable
      ensures Valid() && model == old(model) && clock == now
      ensures dir.Now() == old(dir.Now()) && sweptKeys == old(sweptKeys) + swept
      ensures Sweeper(memtable.rows, memtable.sweepCursor) ==
        Sweep(Sweeper(old(memtable.rows), old(memtable.sweepCursor)), now, budget)
    {
      hide Consistent, OpenTables, Search, Less, LowerBound, LiveCount, TotalCost, SameView;
      ConsistentLater(E(), now);
      clock := now;
      ghost var e := E();
      swept := memtable.SweepExpired(now, budget);
      sweptKeys := sweptKeys + swept;
      SweepSameView(e.mem, old(memtable.sweepCursor), now, budget);
      SweptConsistent(e, memtable.rows);
    }

    // -------------------------------------------------------------- flushing

    method MaybeFlush()
      requires Valid() && nextSequence < TWO_64
      modifies this, dir, memtable, wal
      ensures Valid() && Kept() && model == old(model) && clock == old(clock)
      ensures Safe(Since(old(dir.Now()), dir.Now()), model, [], clock)
      ensures old(memtable.bytes) < options.memtableLimit ==> dir.Now() == old(dir.Now()) && tables == old(tables)
      ensures old(memtable.bytes) >= options.memtableLimit ==>
        if flushFailed then dir.refused > old(dir.refused) else memtable.rows == []
    {
      hide Consistent, Follows, OpenTables;
      if memtable.bytes < options.memtableLimit {
        Still(dir.Now());
        return;
      }
      var ok := Flush();
      flushFailed := !ok;
    }

    /** The memtable, row by row in key order, tombstones and expired rows included. */
    method WriteMemtable() returns (ok: bool)
      requires memtable.Valid()
      modifies dir
      ensures OnlyTouched(old(dir.Now()), dir.Now(), FLUSH_TEMP)
      ensures ok ==> FLUSH_TEMP in dir.files && FLUSH_TEMP !in dir.dirtyData
      ensures ok ==> IsTableFile(dir.files[FLUSH_TEMP], memtable.rows)
      ensures !ok ==> dir.refused > old(dir.refused)
    {
      hide OnlyTouched, SstableFormat.File, SstableFormat.Fits, SstableFormat.DataBlock, SstableFormat.ProgressAfter;
      hide LiveCount, TotalCost, Ascending, Bare;
      var rows := memtable.rows;
      var writer := new Writer(dir, FLUSH_TEMP, options.bitsPerKey);
      for i := 0 to |rows|
        invariant memtable.rows == rows
        invariant fresh(writer) && writer.dir == dir && writer.name == FLUSH_TEMP
        invariant writer.Valid() && !writer.finished && (!writer.failed ==> writer.rows == rows[..i])
        invariant OnlyTouched(old(dir.Now()), dir.Now(), FLUSH_TEMP)
        invariant writer.failed ==> dir.refused > old(dir.refused)
      {
        OnlyTouchedCounts(old(dir.Now()), dir.Now(), FLUSH_TEMP);
        assert rows[..i + 1] == rows[..i] + [rows[i]];
        label Adding:
        writer.Add(rows[i]);
        OnlyTouchedCounts(old@Adding(dir.Now()), dir.Now(), FLUSH_TEMP);
        OnlyTouchedTransitive(old(dir.Now()), old@Adding(dir.Now()), dir.Now(), FLUSH_TEMP);
      }
      assert rows[..|rows|] == rows;
      label Finishing:
      OnlyTouchedCounts(old(dir.Now()), dir.Now(), FLUSH_TEMP);
      ok := writer.Finish();
      OnlyTouchedCounts(old@Finishing(dir.Now()), dir.Now(), FLUSH_TEMP);
      OnlyTouchedTransitive(old(dir.Now()), old@Finishing(dir.Now()), dir.Now(), FLUSH_TEMP);
    }

    /** Write the memtable out under a temporary name, rename it into place, sync the
        directory, and only then cut the log. */
    method Flush() returns (ok: bool)
      requires Valid() && nextSequence < TWO_64
      modifies this, dir, memtable, wal
      ensures Valid() && Kept() && model == old(model) && clock == old(clock)
      ensures Safe(Since(old(dir.Now()), dir.Now()), model, [], clock)
      ensures if ok then memtable.rows == [] else dir.refused > old(dir.refused)
    {
      hide Consistent, Follows, OpenTables, OnlyTouched, IsTableFile, Safe, LiveCount, TotalCost, Flushed;
      Still(dir.Now());
      if memtable.rows == [] {
        NoMoments(dir.Now(), model, clock);
        return true;
      }
      OtherNames();
      ghost var e, a := E(), dir.Now();
      ok := WriteMemtable();
      ghost var b := dir.Now();
      ScratchConsistent(e, a, b, FLUSH_TEMP);
      FollowsScratch(a, b, FLUSH_TEMP);
      WalUntouched(a, b, FLUSH_TEMP);
      if !ok {
        dir.Unlink(FLUSH_TEMP);
        ScratchUnlinked(e.(files := b.files), FLUSH_TEMP);
        ScratchGone(a, b, dir.Now(), FLUSH_TEMP, model, clock);
        return;
      }
      Publish();
      FollowsTransitive(a, b, dir.Now());
      SafeChain(a, b, dir.Now(), model, [], clock);
    }

    // -------------------------------------------------------------- merging

    /** The sizes the tier walk looks at: those of the table files. */
    method TableSizes() returns (sizes: seq<nat>)
      requires OpenTables(sstables, tables)
      ensures sizes == SizesOf(dir.files, tables)
    {
      hide TableName, Reads;
      sizes := [];
      for i := 0 to |sstables|
        invariant |sizes| == i && forall j :: 0 <= j < i ==> sizes[j] == SizesOf(dir.files, tables)[j]
      {
        assert IsOpen(sstables[i], tables[i]);
        sizes := sizes + [FileSize(dir.files, sstables[i].name)];
      }
    }

    /** What a merge promises. Outside the exposed stretch every crash point is safe; inside
        it a restart finds the map exactly when nothing that was dropped resurfaces. */
    twostate predicate Compacted(g: Merge, now: int)
      reads this, dir, memtable, wal
    {
      && Valid() && model == old(model) && clock == now
      && old(dir.history) <= dir.history && Follows(old(dir.Now()), dir.Now())
      && nextSequence == old(nextSequence) && wal.inherited == old(wal.inherited)
      && SafeOutside(Since(old(dir.Now()), dir.Now()), model, now)
      && MergeExact(old(E()).(clock := now), g, Since(old(dir.Now()), dir.Now()))
    }

    /** Merge one tier, if there is one worth merging. The run is the walk's choice, and dead
        rows are dropped exactly when it reaches the oldest table. */
    method MaybeCompact(now: int) returns (gone: nat, ghost g: Merge)
      requires Valid() && clock <= now
      modifies this, dir
      ensures Compacted(g, now) && Chosen(old(E()), g)
      ensures gone == old(|sstables|) - |sstables| && (gone > 0 ==> compactions == old(compactions) + 1)
      ensures gone > 0 ==> g.len > 0 && gone == g.len - (if g.out == [] then 0 else 1)
      ensures options.useCompaction && FirstTier(SizesOf(old(dir.files), old(tables)), |old(tables)|).len > 0 ==>
        gone > 0 || dir.refused > old(dir.refused)
    {
      hide Consistent, Follows, OpenTables, Safe, SafeOutside, MergeExact, IsMergeOf, FirstTier;
      ConsistentLater(E(), now);
      clock := now;
      g := Merge(0, 0, [], false);
      Still(dir.Now());
      NoMoments(dir.Now(), model, now);
      SafeIsOutside(Since(dir.Now(), dir.Now()), model, now);
      NothingExposed(old(E()).(clock := now), g, Since(dir.Now(), dir.Now()));
      OpenLength(sstables, tables);
      ChoiceIsTier(SizesOf(dir.files, tables), |tables|);
      if !options.useCompaction || |sstables| < TRIGGER { return 0, g; }
      var sizes := TableSizes();
      var c := Choose(sizes);
      if c.len < TRIGGER { return 0, g; }
      gone, g := MergeRun(c.begin, c.len, now);
    }

    /** rename() before any unlink, directory syncs after both, and the merged table takes
        the newest input's place. */
    method MergeRun(begin: nat, len: nat, now: int) returns (gone: nat, ghost g: Merge)
      requires Valid() && clock == now && 1 < len && begin + len <= |sstables|
      modifies this, dir
      ensures Compacted(g, now)
      ensures gone == old(|sstables|) - |sstables| && (gone > 0 ==> compactions == old(compactions) + 1)
      ensures g.begin == begin && g.len == len && g.drop == (begin + len == old(|sstables|))
      ensures gone > 0 ==> gone == g.len - (if g.out == [] then 0 else 1)
      ensures gone > 0 || dir.refused > old(dir.refused)
    {
      hide Consistent, Follows, OpenTables, Safe, SafeOutside, MergeExact, IsMergeOf, IsTableFile;
      ghost var e, a := E(), dir.Now();
      var ok, written;
      ok, written, g := WriteRun(begin, len, now);
      ghost var b := dir.Now();
      SafeIsOutside(Since(a, b), model, now);
      if !ok { return 0, g; }
      SwapRun(begin, len, g);
      ghost var c := dir.Now();
      FinishRun(begin, len, e.(files := b.files), g, written);
      ghost var d := dir.Now();
      FollowsTransitive(a, b, c);
      FollowsTransitive(a, c, d);
      OutsideChain(a, b, c, model, now);
      OutsideChain(a, c, d, model, now);
      MergeExactFiles(e, b.files, g, Since(b, c));
      MergeExactFiles(e, b.files, g, Since(c, d));
      MergeExactChain(e, g, a, b, c);
      MergeExactChain(e, g, a, c, d);
      gone := len - if written > 0 then 1 else 0;
    }

    /** The merge itself, into the temporary file; a failed one is removed again. */
    method WriteRun(begin: nat, len: nat, now: int) returns (ok: bool, written: nat, ghost g: Merge)
      requires Valid() && clock == now && 1 < len && begin + len <= |sstables|
      modifies dir
      ensures Valid() && g.begin == begin && g.len == len && written == |g.out|
      ensures g.drop == (begin + len == |sstables|)
      ensures old(dir.history) <= dir.history && Follows(old(dir.Now()), dir.Now())
      ensures Safe(Since(old(dir.Now()), dir.Now()), model, [], clock)
      ensures MergeExact(old(E()), g, Since(old(dir.Now()), dir.Now()))
      ensures ok ==> IsMergeOf(E(), g) && COMPACT_TEMP in dir.files && COMPACT_TEMP !in dir.dirtyData
      ensures ok ==> IsTableFile(dir.files[COMPACT_TEMP], g.out)
      ensures !ok ==> dir.refused > old(dir.refused)
    {
      hide Consistent, Follows, OpenTables, Safe, MergeExact, IsMergeOf, OnlyTouched, AllRead, IsTableFile, IsMerge;
      hide SstableFormat.File, SstableFormat.Fits, Bare, TotalRows;
      OtherNames();
      ghost var e, a := E(), dir.Now();
      var dropObsolete := begin + len == |sstables|;
      RunIsRead(sstables, tables, begin, len, e);
      ghost var run := RowsOf(tables[begin..begin + len]);
      var dropped;
      ghost var out;
      ok, written, dropped, out := Compact(sstables[begin..begin + len], dir, COMPACT_TEMP, options.bitsPerKey,
                                           dropObsolete, now, run);
      ghost var b := dir.Now();
      ScratchConsistent(e, a, b, COMPACT_TEMP);
      FollowsScratch(a, b, COMPACT_TEMP);
      WalUntouched(a, b, COMPACT_TEMP);
      if !ok {
        g, written := Merge(begin, len, [], dropObsolete), 0;
        NeverExposed(e, g, a, b, COMPACT_TEMP);
        dir.Unlink(COMPACT_TEMP);
        ScratchUnlinked(e.(files := b.files), COMPACT_TEMP);
        ScratchGone(a, b, dir.Now(), COMPACT_TEMP, model, clock);
        OneMoreHidden(e, g, a, b, dir.Now());
        return;
      }
      g := Merge(begin, len, out, dropObsolete);
      NeverExposed(e, g, a, b, COMPACT_TEMP);
      WrittenTable(dir.files[COMPACT_TEMP], out, options.bitsPerKey, run, dropObsolete, now);
      MergeOfRun(E(), g);
    }

    /** The merged table is in place and its other inputs are gone; it is not open yet. */
    ghost predicate Swapped(e: Engine, g: Merge)
      reads this, dir, memtable, wal
    {
      && wal.dir == dir && memtable.Valid() && wal.Valid() && !dir.exposed
      && OpenTables(sstables, tables) && IsMergeOf(e, g)
      && E().(files := e.files) == e
      && Consistent(Merged(e, g, dir.files))
    }

    method SwapRun(begin: nat, len: nat, ghost g: Merge)
      requires Valid() && IsMergeOf(E(), g) && begin == g.begin && 1 < len == g.len
      requires g.drop == (begin + len == |sstables|)
      requires COMPACT_TEMP in dir.files && COMPACT_TEMP !in dir.dirtyData
      requires IsTableFile(dir.files[COMPACT_TEMP], g.out)
      modifies dir
      ensures Swapped(old(E()), g) && SwapSafe(old(E()), g, old(dir.Now()), dir.Now())
      ensures Follows(old(dir.Now()), dir.Now())
    {
      hide Consistent, Follows, SwapSafe, IsMerge, IsTableFile, MidFiles, TableName, SequenceOf, OpenTables, SafeDisk,
        ExactDisk, Recorded, DirtKept;
      ghost var e, a := E(), dir.Now();
      OtherNames();
      RunNames(sstables, e, g);
      MergeRenamed(e, g);
      NoSteps(e, g, a);
      var drop := begin + len == |sstables|;
      dir.exposed := drop;
      dir.Rename(COMPACT_TEMP, sstables[begin].name);
      MidMoment(e, g, 1, dir.files, dir.exposed);
      OneMoment(e, g, a, a, dir.Now());
      RenameKeeps(a, dir.Now(), COMPACT_TEMP, sstables[begin].name);
      ghost var renamed := dir.Now();
      dir.FsyncDir();
      SameHistory(e, g, a, renamed, dir.Now());
      SyncKeeps(a, renamed, dir.Now());
      UnlinkInputs(begin, len, drop, e, g, a);
      ghost var unlinked := dir.Now();
      dir.FsyncDir();
      SameHistory(e, g, a, unlinked, dir.Now());
      SyncKeeps(a, unlinked, dir.Now());
      MergedConsistent(e, g, dir.files);
      CleanNames(a, dir.Now());
    }

    /** The inputs whose place the merged table did not take, newest first. The exposed
        stretch of a dropping merge ends with the last of them. */
    method UnlinkInputs(begin: nat, len: nat, drop: bool, ghost e: Engine, ghost g: Merge, ghost a: State)
      requires Consistent(e) && IsMergeOf(e, g) && begin == g.begin && 1 < len == g.len && drop == g.drop
      requires |sstables| == |e.ts| && MidFiles(e, g, 1, dir.files) && dir.exposed == g.drop
      requires forall i :: 0 <= i < |e.ts| ==>
        sstables[i].name == TableName(e.ts[i].sequence) && sstables[i].name != WAL
      requires WAL in dir.files && SwapSafe(e, g, a, dir.Now())
      requires a.history <= dir.history && Recorded(a, dir.Now()) && DirtKept(a, dir.Now())
      modifies dir
      ensures MidFiles(e, g, len, dir.files) && !dir.exposed && SwapSafe(e, g, a, dir.Now())
      ensures WAL in dir.files && dir.files[WAL] == old(dir.files[WAL])
      ensures WAL in dir.dirtyData <==> WAL in old(dir.dirtyData)
      ensures Recorded(a, dir.Now()) && DirtKept(a, dir.Now()) && dir.dirSyncs == old(dir.dirSyncs)
    {
      hide Consistent, SwapSafe, IsMerge, MidFiles, TableName, SafeDisk, ExactDisk, DirtKept, Recorded;
      for n := 1 to len
        invariant MidFiles(e, g, n, dir.files) && dir.exposed == (g.drop && n < g.len)
        invariant WAL in dir.files && dir.files[WAL] == old(dir.files[WAL])
        invariant WAL in dir.dirtyData <==> WAL in old(dir.dirtyData)
        invariant SwapSafe(e, g, a, dir.Now()) && a.history <= dir.history
        invariant Recorded(a, dir.Now()) && DirtKept(a, dir.Now()) && dir.dirSyncs == old(dir.dirSyncs)
      {
        ghost var b := dir.Now();
        MergeUnlinked(e, g, n, dir.files);
        dir.exposed := drop && n + 1 < len;
        dir.Unlink(sstables[begin + n].name);
        MidMoment(e, g, n + 1, dir.files, dir.exposed);
        OneMoment(e, g, a, b, dir.Now());
        UnlinkKeeps(a, b, dir.Now(), sstables[begin + n].name);
      }
    }

    /** Open the merged table in the newest input's place, or drop it when it is empty. */
    method FinishRun(begin: nat, len: nat, ghost e: Engine, ghost g: Merge, written: nat)
      requires Swapped(e, g) && begin == g.begin && 1 < len == g.len && written == |g.out|
      modifies this, dir
      ensures Valid() && model == old(model) && clock == old(clock) && nextSequence == old(nextSequence)
      ensures SwapSafe(e, g, old(dir.Now()), dir.Now()) && Follows(old(dir.Now()), dir.Now())
      ensures |sstables| == old(|sstables|) - len + (if written > 0 then 1 else 0)
      ensures compactions == old(compactions) + 1
    {
      hide Consistent, Follows, SwapSafe, IsMerge, IsTableFile, TableName, SequenceOf, OpenFile, OpenTables, MidMerge;
      hide SafeDisk, DirtKept;
      ghost var a := dir.Now();
      ghost var mid := Merged(e, g, dir.files);
      MidTables(sstables, e, g, dir.files, options.useBloom);
      var target := sstables[begin].name;
      NoSteps(e, g, a);
      Still(a);
      tables := mid.ts;
      compactions := compactions + 1;
      if written > 0 {
        var t := Open(target, dir.files[target], options.useBloom);
        sstables := sstables[..begin] + [t.value] + sstables[begin + len..];
      } else {
        sstables := sstables[..begin] + sstables[begin + len..];
        EmptyMergeConsistent(mid, begin);
        dir.Unlink(target);
        OneMoment(e, g, a, a, dir.Now());
        UnlinkKeeps(a, a, dir.Now(), target);
        ghost var unlinked := dir.Now();
        dir.FsyncDir();
        SameHistory(e, g, a, unlinked, dir.Now());
        SyncKeeps(a, unlinked, dir.Now());
        CleanNames(a, dir.Now());
        tables := Without(mid.ts, begin);
      }
    }

    // -------------------------------------------------------------- starting over

    /** Every table, then the log, then the memtable. Until the log is cut a crash leaves
        neither the old map nor the new one, but the old log over the oldest tables. */
    method FlushAll(now: int)
      requires Valid() && clock <= now
      modifies this, dir, memtable, wal
      ensures Valid() && model == map[] && clock == now && nextSequence == 1 && sstables == []
      ensures Follows(old(dir.Now()), dir.Now()) && !wal.inherited
      ensures SafeOutside(Since(old(dir.Now()), dir.Now()), map[], now)
      ensures ClearExact(old(E()), Since(old(dir.Now()), dir.Now()))
    {
      hide Consistent, Follows, Safe, LiveCount, TotalCost, OpenTables, Ascending, Bare, Hidden, ClearExact, DirtKept;
      hide SafeOutside;
      ghost var e, a := E(), dir.Now();
      ghost var b := ClearDisk();
      sstables, tables := [], [];
      NothingOpen();
      memtable.Clear();
      nextSequence, flushFailed := 1, false;
      log, model, clock := [], map[], now;
      EmptiedConsistent(dir.files, now);
      EmptiedSafe(E(), a, b, dir.Now());
      ClearDone(e, a, b, dir.Now());
      CleanNames(a, dir.Now());
    }

    /** The unlinks are durable before the log is cut. */
    method ClearDisk() returns (ghost b: State)
      requires Valid()
      modifies dir, wal
      ensures Holds(dir.files, []) && WAL in dir.files && dir.files[WAL] == [] && !dir.exposed
      ensures wal.Valid() && !wal.inherited && dir.dirtyNames == {} && dir.dirSyncs == old(dir.dirSyncs) + 1
      ensures Recorded(old(dir.Now()), dir.Now()) && DirtKept(old(dir.Now()), dir.Now())
      ensures old(dir.history) <= b.history && Hidden(Since(old(dir.Now()), b))
      ensures ClearExact(old(E()), Since(old(dir.Now()), b))
      ensures dir.history == b.history + [Moment(dir.files, dir.exposed)]
    {
      hide Consistent, TableName, SequenceOf, Holds, LiveCount, TotalCost, Hidden, Ascending, Bare, ClearExact,
        LogHolds;
      hide Recorded, DirtKept;
      ghost var e, a := E(), dir.Now();
      AllNames(sstables, e);
      UnlinkAll(e, a);
      ghost var unlinked := dir.Now();
      dir.FsyncDir();
      dir.exposed := false;
      b := dir.Now();
      SyncKeeps(a, unlinked, b);
      wal.Truncate();
      TruncateKeeps(a, b, dir.Now());
      HoldsLog(b.files, [], []);
    }

    method UnlinkAll(ghost e: Engine, ghost a: State)
      requires |sstables| == |e.ts| && Holds(dir.files, e.ts) && LogHolds(dir.files, e.log)
      requires WAL in dir.files && dir.Now() == a
      requires forall i :: 0 <= i < |e.ts| ==>
        sstables[i].name == TableName(e.ts[i].sequence) && sstables[i].name != WAL
      modifies dir
      ensures Holds(dir.files, []) && WAL in dir.files && dir.files[WAL] == old(dir.files[WAL])
      ensures WAL in dir.dirtyData <==> WAL in old(dir.dirtyData)
      ensures Recorded(a, dir.Now()) && DirtKept(a, dir.Now()) && dir.dirSyncs == old(dir.dirSyncs)
      ensures a.history <= dir.history && Hidden(Since(a, dir.Now())) && ClearExact(e, Since(a, dir.Now()))
    {
      hide TableName, SequenceOf, Holds, LogHolds, Recorded, DirtKept, Hidden, ClearExact;
      dir.exposed := true;
      assert e.ts[0..] == e.ts;
      ClearStarts(e, a, dir.Now());
      for n := 0 to |sstables|
        invariant Holds(dir.files, e.ts[n..]) && LogHolds(dir.files, e.log) && dir.exposed
        invariant WAL in dir.files && dir.files[WAL] == old(dir.files[WAL])
        invariant WAL in dir.dirtyData <==> WAL in old(dir.dirtyData)
        invariant Recorded(a, dir.Now()) && DirtKept(a, dir.Now()) && dir.dirSyncs == old(dir.dirSyncs)
        invariant a.history <= dir.history && Hidden(Since(a, dir.Now())) && ClearExact(e, Since(a, dir.Now()))
      {
        ghost var b := dir.Now();
        dir.Unlink(sstables[n].name);
        UnlinkKeeps(a, b, dir.Now(), sstables[n].name);
        ClearStep(e, a, b, dir.Now(), n);
      }
      assert e.ts[|sstables|..] == [];
    }

    method SwapIn(path: string)
      requires wal.dir == dir && wal.Valid()
      requires FLUSH_TEMP in dir.files && FLUSH_TEMP !in dir.dirtyData && path != WAL && path != FLUSH_TEMP
      modifies dir, wal
      ensures wal.Valid() && !wal.inherited
      ensures dir.files == (old(dir.files) - {FLUSH_TEMP})[path := old(dir.files[FLUSH_TEMP])][WAL := []]
      ensures dir.exposed == old(dir.exposed)
      ensures dir.history == old(dir.history)
        + [Moment((old(dir.files) - {FLUSH_TEMP})[path := old(dir.files[FLUSH_TEMP])], dir.exposed)]
        + [Moment(dir.files, dir.exposed)]
      ensures dir.dirtyNames == {} && dir.dirtyData <= old(dir.dirtyData) - {FLUSH_TEMP, path}
      ensures dir.dirSyncs == old(dir.dirSyncs) + 1 && Traces(old(dir.Now()), dir.Now())
    {
      OtherNames();
      dir.Rename(FLUSH_TEMP, path);
      dir.FsyncDir();
      wal.Truncate();
    }

    /** Rename, directory sync, log cut; then the table is open and the memtable empty. */
    method Publish()
      requires Valid() && nextSequence < TWO_64
      requires FLUSH_TEMP in dir.files && FLUSH_TEMP !in dir.dirtyData
      requires IsTableFile(dir.files[FLUSH_TEMP], memtable.rows)
      modifies this, dir, memtable, wal
      ensures Valid() && Kept() && model == old(model) && clock == old(clock) && memtable.rows == []
      ensures Safe(Since(old(dir.Now()), dir.Now()), model, [], clock)
    {
      hide Consistent, Follows, IsTableFile, Safe, LiveCount, TotalCost, TableName, Reads, OpenFile, SafeDisk,
        SequenceOf, OpenTables, Ascending, Bare;
      var sequence := nextSequence;
      var path := TableName(sequence);
      OtherNames();
      TableNameIsNoOther(sequence);
      FlushedConsistent(E());
      ghost var e, file, rows := E(), dir.files[FLUSH_TEMP], memtable.rows;
      TableOpens(path, file, rows, options.useBloom);
      ghost var a := dir.Now();
      SwapIn(path);
      TwoMoments(a, dir.Now(), FlushedFiles(e), Flushed(e).files, model, clock);
      FlushDirt(a, dir.Now(), path, file);
      var t := Open(path, dir.files[path], options.useBloom);
      OpenNewest(t.value, Numbered(sequence, rows), sstables, tables);
      sstables := [t.value] + sstables;
      nextSequence := sequence + 1;
      memtable.Clear();
      tables, log := [Numbered(sequence, rows)] + tables, [];
      assert E() == Flushed(e);
    }
  }

  // ---------------------------------------------------------------- starting up

  /** What start-up promises: the store reads as the map the disk recovers to, and a crash
      during start-up changes nothing. */
  ghost predicate Started(s: Store, d: Directory, a: State, m: Model, clock: int)
    reads s, s.dir, s.memtable, s.wal
  {
    && s.dir == d && s.Valid() && s.model == m && s.clock == clock
    && a.history <= s.dir.history && Safe(Since(a, s.dir.Now()), m, [], clock)
    && Begun(a, s.dir.Now())
    && s.wal.bytesSinceSync == 0 && (s.wal.inherited <==> WAL in s.dir.dirtyData)
    && (WAL !in a.files ==> s.memtable.bytes == 0)
    && s.nextSequence == if s.tables == [] then 1 else s.tables[0].sequence + 1
  }

  /** The Store constructor: tables by name, newest first; stale temporary files removed. */
  method Adopt(dir: Directory, options: Options, ghost ts: seq<Numbered>, ghost m: Model, ghost clock: int)
    returns (sstables: seq<Sstable>, next: nat)
    requires RecoversWith(dir.files, ts, m, clock) && !dir.exposed
    modifies dir
    ensures RecoversWith(dir.files, ts, m, clock) && !dir.exposed
    ensures old(dir.history) <= dir.history && Safe(Since(old(dir.Now()), dir.Now()), m, [], clock)
    ensures OpenTables(sstables, ts) && next == if ts == [] then 1 else ts[0].sequence + 1
    ensures dir.files == WithoutTemps(old(dir.files)) && Recorded(old(dir.Now()), dir.Now())
    ensures WAL in dir.files <==> WAL in old(dir.files)
    ensures dir.dirtyNames == old(dir.dirtyNames) + {COMPACT_TEMP, FLUSH_TEMP} && dir.dirSyncs == old(dir.dirSyncs)
    ensures dir.dirtyData == old(dir.dirtyData) - {COMPACT_TEMP, FLUSH_TEMP}
  {
    hide RecoversWith, Safe, SequenceOf, OpenTables, Listed, Holds;
    ghost var a := dir.Now();
    OtherNames();
    NoMoments(a, m, clock);
    var sequences := ListSequences(dir.files);
    Adopted(dir.files, sequences, ts, m, clock);
    TempGone(dir.files, COMPACT_TEMP, ts, m, clock);
    dir.Unlink(COMPACT_TEMP);
    ghost var b := dir.Now();
    StartStep(a, a, b, ts, m, clock);
    TempGone(dir.files, FLUSH_TEMP, ts, m, clock);
    dir.Unlink(FLUSH_TEMP);
    StartStep(a, b, dir.Now(), ts, m, clock);
    HoldsOf(dir.files, ts, m, clock);
    sstables := OpenAll(dir.files, sequences, options.useBloom, ts);
    next := if sequences == [] then 1 else sequences[0] + 1;
  }

  /** Replay and the cut of the torn tail. */
  method ReplayLog(dir: Directory, memtable: MemTable, ghost ts: seq<Numbered>, ghost a: State, ghost m: Model,
                   ghost clock: int)
    requires RecoversWith(dir.files, ts, m, clock) && !dir.exposed
    requires a.history <= dir.history && Safe(Since(a, dir.Now()), m, [], clock)
    requires memtable.Valid() && memtable.rows == []
    modifies dir, memtable
    ensures !dir.exposed && RecoversWith(dir.files, ts, m, clock)
    ensures a.history <= dir.history && Safe(Since(a, dir.Now()), m, [], clock)
    ensures memtable.Valid() && memtable.rows == Replayed([], Scan(LogOf(dir.files)).records)
    ensures WAL in dir.files ==> LogHolds(dir.files, Scan(LogOf(dir.files)).records)
    ensures dir.files == LogCut(old(dir.files)) && Recorded(old(dir.Now()), dir.Now())
    ensures dir.dirtyNames == old(dir.dirtyNames) && dir.dirSyncs == old(dir.dirSyncs)
    ensures dir.dirtyData ==
      old(dir.dirtyData) + (if WAL in old(dir.files) && !LogWhole(old(dir.files)) then {WAL} else {})
    ensures WAL !in old(dir.files) ==> memtable.bytes == old(memtable.bytes)
  {
    hide RecoversWith, Safe, Scan, Replayed, LiveCount, TotalCost, Ascending, Bare;
    if WAL !in dir.files {
      EmptyLog();
      NothingApplied(map[]);
      assert Replayed([], []) == [] by { NothingDeleted(map[], [], []); }
      return;
    }
    ghost var b := dir.Now();
    LogSettled(dir.files, ts, m, clock);
    ScanIdempotent(dir.files[WAL]);
    var records, good, truncated, kept := Replay(dir.files[WAL]);
    ApplyRecords(memtable, records);
    if truncated {
      dir.Truncate(WAL, good);
      StartStep(a, b, dir.Now(), ts, m, clock);
    } else {
      assert kept == dir.files[WAL] && dir.files[WAL := kept] == dir.files;
    }
  }

  /** The log opened for appending, and created if it was missing. */
  method OpenLog(dir: Directory, policy: SyncPolicy, group: bool, ghost ts: seq<Numbered>, ghost a: State,
                 ghost m: Model, ghost clock: int)
    returns (wal: Wal)
    requires RecoversWith(dir.files, ts, m, clock) && !dir.exposed
    requires a.history <= dir.history && Safe(Since(a, dir.Now()), m, [], clock)
    requires WAL in dir.files ==> LogHolds(dir.files, Scan(LogOf(dir.files)).records)
    modifies dir
    ensures fresh(wal) && wal.dir == dir && wal.Valid()
    ensures wal.bytesSinceSync == 0 && (wal.inherited <==> WAL in dir.dirtyData)
    ensures !dir.exposed && RecoversWith(dir.files, ts, m, clock)
    ensures a.history <= dir.history && Safe(Since(a, dir.Now()), m, [], clock)
    ensures LogHolds(dir.files, Scan(LogOf(dir.files)).records)
    ensures Scan(LogOf(dir.files)).records == Scan(LogOf(old(dir.files))).records
    ensures dir.files == LogOpened(old(dir.files)) && Recorded(old(dir.Now()), dir.Now())
    ensures dir.dirtyNames == old(dir.dirtyNames) + (if WAL in old(dir.files) then {} else {WAL})
    ensures dir.dirtyData == old(dir.dirtyData) + (if WAL in old(dir.files) then {} else {WAL})
    ensures dir.dirSyncs == old(dir.dirSyncs)
  {
    hide RecoversWith, Safe, Scan;
    ghost var c := dir.Now();
    LogSettled(dir.files, ts, m, clock);
    EmptyLog();
    wal := new Wal(dir, policy, group);
    if WAL !in c.files { StartStep(a, c, dir.Now(), ts, m, clock); }
  }

  /** Constructor, replay and log opening, in the program's order: list the tables by name,
      remove left-over temporary files, open the tables, replay the log, cut its torn tail,
      open it for appending. */
  method Start(dir: Directory, options: Options, policy: SyncPolicy, group: bool, ghost m: Model, ghost clock: int)
    returns (s: Store)
    requires Recovers(dir.files, m, clock) && !dir.exposed
    modifies dir
    ensures fresh(s) && fresh(s.memtable) && fresh(s.wal) && s.options == options
    ensures Started(s, dir, old(dir.Now()), m, clock)
  {
    hide RecoversWith, Safe, Scan, Replayed, OpenTables, LiveCount, TotalCost, Consistent, Ascending, Bare;
    hide Begun, LogCut, LogOpened, WithoutTemps, LogWhole, Recorded, LogOf, LogHolds;
    ghost var a := dir.Now();
    ghost var ts :| RecoversWith(dir.files, ts, m, clock);
    var sstables, next := Adopt(dir, options, ts, m, clock);
    ghost var b := dir.Now();
    var memtable := new MemTable();
    ReplayLog(dir, memtable, ts, a, m, clock);
    ghost var c := dir.Now();
    var wal := OpenLog(dir, policy, group, ts, a, m, clock);
    BegunInParts(a, b, c, dir.Now());
    ghost var rs := Scan(LogOf(dir.files)).records;
    StartConsistent(dir.files, ts, m, clock, rs, next);
    s := new Store(dir, memtable, wal, options, sstables, next, ts, rs, m, clock);
  }
}
